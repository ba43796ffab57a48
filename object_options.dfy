/**
 * The decisions the object operations make on their options hash and object
 * name before handing work to the storage SDK: which bucket to use, whether
 * a signed URL is secure and when it expires, which content type to store,
 * what name an attachment is stored under, and whether a copy happens.
 *
 * The SDK itself is left abstract: `Env` supplies the configured bucket
 * name, the clock, the add-twenty-years step and the answer of the SDK's
 * existence check for each object.
 */
module ObjectOptions {
  import opened Wrappers
  import opened ContentTypes
  import opened Expiration

  /**
   * The keys of an options hash. The three symbols the operations read have
   * their own constructors; `OtherOpt` stands for every other key, which is
   * passed through to the SDK, so its name is never `content_type`, `secure`
   * or `bucket`.
   */
  datatype OptKey = ContentTypeOpt | SecureOpt | BucketOpt | OtherOpt(name: string)

  /**
   * A value in an options hash. `ContentTable` is the content-type hash
   * itself, which `content_type` returns when no extension matches.
   */
  datatype OptValue = Str(s: string) | Flag(b: bool) | Nil | ContentTable

  type Options = map<OptKey, OptValue>

  /** A handle on one object: the bucket it is looked up in, and its key. */
  datatype ObjectRef = ObjectRef(bucket: OptValue, key: string)

  /** What `url_for(:read, secure:, expires:)` is asked to sign. */
  datatype SignedUrl = SignedUrl(target: ObjectRef, secure: OptValue, expires: int)

  /** What `copy_to` is asked to do. */
  datatype CopyRequest = CopyRequest(source: ObjectRef, target: string, targetOptions: Options)

  /** The parts of the outside world the option logic depends on. */
  datatype Env = Env(
    configuredBucket: OptValue,       // the s3_bucket setting
    now: int,                         // the current instant
    addTwentyYears: int -> int,       // calendar step used by doomsday
    objectExists: ObjectRef -> bool)      // the SDK's exists? check

  /** `s3_get_object`: an explicit `:bucket` option overrides the configured bucket. */
  function ResolveObject(name: string, opt: Options, configured: OptValue): (obj: ObjectRef)
    ensures obj.key == name
    ensures BucketOpt in opt ==> obj.bucket == opt[BucketOpt]
    ensures BucketOpt !in opt ==> obj.bucket == configured
  {
    ObjectRef(if BucketOpt in opt then opt[BucketOpt] else configured, name)
  }

  /**
   * `s3_get_object_url`: nil when the object does not exist; otherwise a
   * URL request that is secure unless `:secure` says otherwise, expiring at
   * `doomsday`.
   */
  function ObjectUrl(name: string, opt: Options, env: Env): (url: Option<SignedUrl>)
    ensures url.None? <==> !env.objectExists(ResolveObject(name, opt, env.configuredBucket))
    ensures url.Some? ==> url.value.target == ResolveObject(name, opt, env.configuredBucket)
    ensures url.Some? && SecureOpt !in opt ==> url.value.secure == Flag(true)
    ensures url.Some? && SecureOpt in opt ==> url.value.secure == opt[SecureOpt]
    ensures url.Some? ==> url.value.expires == Doomsday(env.now, env.addTwentyYears)
    ensures url.Some? ==> url.value.expires <= AwsMaxDate && url.value.expires <= env.addTwentyYears(env.now)
  {
    var obj := ResolveObject(name, opt, env.configuredBucket);
    if !env.objectExists(obj) then None
    else
      var secure := if SecureOpt in opt then opt[SecureOpt] else Flag(true);
      Some(SignedUrl(obj, secure, Doomsday(env.now, env.addTwentyYears)))
  }

  /**
   * The value of one attempt of `s3_store`'s block, once the write is done:
   * a signed URL when the object now exists, nil otherwise. `env.objectExists`
   * describes the store as it is after the write.
   */
  function StoreResult(name: string, opt: Options, env: Env): (url: Option<SignedUrl>)
    ensures url.Some? <==> env.objectExists(ResolveObject(name, opt, env.configuredBucket))
    ensures url.Some? ==> url == ObjectUrl(name, opt, env)
  {
    if env.objectExists(ResolveObject(name, opt, env.configuredBucket)) then ObjectUrl(name, opt, env) else None
  }

  /** The value stored under `:content_type` for what `content_type` returned. */
  function LookupValue(l: TypeLookup): OptValue
  {
    match l
    case Found(mime) => Str(mime)
    case NoMatch => ContentTable
  }

  /**
   * The options of `s3_store_file` after it has filled in `:content_type`
   * from the file's extension `ext`: a type given by the caller is kept,
   * a missing one is looked up, and no other key changes.
   */
  function WithContentType(opt: Options, ext: string): (r: Options)
    ensures r.Keys == opt.Keys + {ContentTypeOpt}
    ensures forall k :: k in opt && k != ContentTypeOpt ==> r[k] == opt[k]
    ensures ContentTypeOpt in opt ==> r[ContentTypeOpt] == opt[ContentTypeOpt]
    ensures ContentTypeOpt !in opt ==> r[ContentTypeOpt] == LookupValue(ContentType(ext))
  {
    if ContentTypeOpt in opt then opt else opt[ContentTypeOpt := LookupValue(ContentType(ext))]
  }

  /** An extension in the table is stored as the first MIME type listed for it. */
  lemma InferredTypeListed(opt: Options, ext: string, i: nat)
    requires ContentTypeOpt !in opt
    requires i < |Table| && Table[i].1 == ext
    requires forall j :: 0 <= j < i ==> Table[j].1 != ext
    ensures WithContentType(opt, ext)[ContentTypeOpt] == Str(Table[i].0)
  {
    ContentTypeFirstMatch(ext, i);
  }

  /**
   * An extension missing from the table is stored as the content-type hash
   * itself, never as a MIME string.
   */
  lemma InferredTypeUnlisted(opt: Options, ext: string)
    requires ContentTypeOpt !in opt
    requires forall i :: 0 <= i < |Table| ==> Table[i].1 != ext
    ensures WithContentType(opt, ext)[ContentTypeOpt] == ContentTable
  {
  }

  /** Filling in the content type twice changes nothing the second time. */
  lemma WithContentTypeIdempotent(opt: Options, ext: string, ext2: string)
    ensures WithContentType(WithContentType(opt, ext), ext2) == WithContentType(opt, ext)
  {
  }

  /** The caller's options hash, which `s3_store_file` updates in place. */
  class OptionsHash {
    var entries: Options

    constructor (entries: Options)
      ensures this.entries == entries
    {
      this.entries := entries;
    }

    /** `opt[:content_type] = content_type(ext) unless opt.include?(:content_type)`. */
    method FillContentType(ext: string)
      modifies this
      ensures entries == WithContentType(old(entries), ext)
    {
      if ContentTypeOpt !in entries {
        entries := entries[ContentTypeOpt := LookupValue(ContentType(ext))];
      }
    }
  }

  /**
   * `s3_store_file`: fill in the content type in the caller's hash, then
   * store with the updated options. `ext` is the file's extension as
   * `File.extname` gives it.
   */
  method StoreFile(name: string, ext: string, opt: OptionsHash, env: Env) returns (url: Option<SignedUrl>)
    modifies opt
    ensures opt.entries == WithContentType(old(opt.entries), ext)
    ensures url == StoreResult(name, opt.entries, env)
  {
    opt.FillContentType(ext);
    url := StoreResult(name, opt.entries, env);
  }

  /**
   * `s3_store_attachment`: the object name gains the extension listed for
   * the attachment's content type, and the content type is passed as the
   * only option.
   */
  function AttachmentTarget(name: string, contentType: string): (r: (string, Options))
    ensures |r.0| >= |name| && r.0[..|name|] == name
    ensures forall i :: 0 <= i < |Table| && Table[i].0 == contentType ==> r.0[|name|..] == Table[i].1
    ensures (forall i :: 0 <= i < |Table| ==> Table[i].0 != contentType) ==> r.0 == name
    ensures r.1 == map[ContentTypeOpt := Str(contentType)]
  {
    (name + ContentExt(contentType), map[ContentTypeOpt := Str(contentType)])
  }

  /**
   * The extension added to an attachment's name leads back to its content
   * type, except for `audio/mp4`, whose `.mp4` leads to `audio/acc`.
   */
  lemma AttachmentExtensionRoundTrip(name: string, i: nat)
    requires i < |Table|
    ensures var target := AttachmentTarget(name, Table[i].0).0;
      ContentType(target[|name|..]) == Found(Table[i].0) <==> Table[i].0 != "audio/mp4"
  {
    ListedTypeRoundTrip(i);
  }

  /**
   * `s3_copy`'s block: the copy is requested only when the source object
   * exists; otherwise nothing is written and the block returns nil.
   */
  function CopyPlan(orig: string, origOpt: Options, target: string, targetOpt: Options, env: Env): (r: Option<CopyRequest>)
    ensures r.Some? <==> env.objectExists(ResolveObject(orig, origOpt, env.configuredBucket))
    ensures r.Some? ==> r.value.source == ResolveObject(orig, origOpt, env.configuredBucket)
    ensures r.Some? ==> r.value.target == target && r.value.targetOptions == targetOpt
  {
    var obj := ResolveObject(orig, origOpt, env.configuredBucket);
    if env.objectExists(obj) then Some(CopyRequest(obj, target, targetOpt)) else None
  }

  /**
   * The options `s3_download_large_file` passes to `s3_get_object`, as
   * written: `{bucket: opt[:bucket]}`, whose `:bucket` is nil when the
   * caller gave none.
   */
  function LargeDownloadOptionsAsWritten(opt: Options): (r: Options)
    ensures BucketOpt in r
    ensures r[BucketOpt] == (if BucketOpt in opt then opt[BucketOpt] else Nil)
  {
    map[BucketOpt := if BucketOpt in opt then opt[BucketOpt] else Nil]
  }

  /**
   * As written, a large download without a `:bucket` option looks the
   * object up in the nil bucket rather than the configured one, unlike
   * every other operation.
   */
  lemma LargeDownloadIgnoresConfiguredBucket(name: string, configured: OptValue)
    requires configured != Nil
    ensures ResolveObject(name, LargeDownloadOptionsAsWritten(map[]), configured).bucket == Nil
    ensures ResolveObject(name, map[], configured).bucket == configured
  {
  }

  /** The options a large download evidently means to pass: the `:bucket` option, if any. */
  function LargeDownloadOptions(opt: Options): (r: Options)
    ensures r.Keys <= {BucketOpt}
    ensures BucketOpt in r <==> BucketOpt in opt
    ensures BucketOpt in r ==> r[BucketOpt] == opt[BucketOpt]
  {
    if BucketOpt in opt then map[BucketOpt := opt[BucketOpt]] else map[]
  }

  /** With the intended options, a large download reads the same object a plain download does. */
  lemma LargeDownloadResolvesLikeDownload(name: string, opt: Options, configured: OptValue)
    ensures ResolveObject(name, LargeDownloadOptions(opt), configured) == ResolveObject(name, opt, configured)
  {
  }
}
