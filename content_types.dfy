/**
 * The fixed MIME-type / file-extension table and its two lookups.
 *
 * The table is a Ruby hash literal: an ordered list of (MIME type,
 * extension) pairs with distinct keys. `content_ext` is the keyed lookup
 * (defaulting to the empty string); `content_type` walks the pairs in order
 * and returns the first MIME type whose extension matches, so a shared
 * extension resolves to its earliest entry.
 */
module ContentTypes {

  type Entry = (string, string)

  /** CONTENT_TYPE_TO_EXT, in insertion order. */
  const Table: seq<Entry> := [
    ("audio/amr", ".amr"),
    ("audio/acc", ".mp4"),
    ("audio/mp4", ".mp4"),
    ("audio/mpeg", ".mp3"),
    ("audio/ogg", ".ogg"),
    ("image/jpeg", ".jpg"),
    ("image/png", ".png"),
    ("image/gif", ".gif"),
    ("text/plain", ".txt"),
    ("text/rtf", ".rtf"),
    ("application/zip", ".zip"),
    ("application/pdf", ".pdf"),
    ("application/msword", ".doc")
  ]

  /**
   * What `content_type` returns. When no entry matches, Ruby's `Hash#each`
   * finishes and hands back the hash itself; `NoMatch` stands for that
   * value, which is neither a MIME string nor nil.
   */
  datatype TypeLookup = Found(mime: string) | NoMatch

  /** Position of the first pair whose MIME type is `ct`, or `|t|` if none. */
  function IndexOfType(t: seq<Entry>, ct: string): (i: nat)
    ensures i <= |t|
    ensures i < |t| ==> t[i].0 == ct
    ensures forall j :: 0 <= j < i ==> t[j].0 != ct
  {
    if t == [] then 0
    else if t[0].0 == ct then 0
    else 1 + IndexOfType(t[1..], ct)
  }

  /** Position of the first pair whose extension is `ext`, or `|t|` if none. */
  function IndexOfExt(t: seq<Entry>, ext: string): (i: nat)
    ensures i <= |t|
    ensures i < |t| ==> t[i].1 == ext
    ensures forall j :: 0 <= j < i ==> t[j].1 != ext
  {
    if t == [] then 0
    else if t[0].1 == ext then 0
    else 1 + IndexOfExt(t[1..], ext)
  }

  /** Every MIME type occurs once in the table, as in any Ruby hash. */
  lemma KeysDistinct()
    ensures forall i, j :: 0 <= i < j < |Table| ==> Table[i].0 != Table[j].0
  {
  }

  /** The only extension shared by two entries is `.mp4`, at positions 1 and 2. */
  lemma OnlyMp4Shared()
    ensures forall i, j :: 0 <= i < j < |Table| && Table[i].1 == Table[j].1 ==> i == 1 && j == 2
  {
  }

  /**
   * `content_ext`: the extension listed for `ct`, or `''` when `ct` is not a
   * key of the table.
   */
  function ContentExt(ct: string): (ext: string)
    ensures forall i :: 0 <= i < |Table| && Table[i].0 == ct ==> ext == Table[i].1
    ensures (forall i :: 0 <= i < |Table| ==> Table[i].0 != ct) ==> ext == ""
  {
    KeysDistinct();
    var i := IndexOfType(Table, ct);
    if i < |Table| then Table[i].1 else ""
  }

  /**
   * `content_type`: the first MIME type in table order whose extension is
   * `ext`, or `NoMatch` when no entry has that extension.
   */
  function ContentType(ext: string): (r: TypeLookup)
    ensures r.NoMatch? <==> forall i :: 0 <= i < |Table| ==> Table[i].1 != ext
    ensures r.Found? ==> ContentExt(r.mime) == ext
  {
    var i := IndexOfExt(Table, ext);
    if i < |Table| then Found(Table[i].0) else NoMatch
  }

  /** The first entry carrying an extension decides `content_type`. */
  lemma ContentTypeFirstMatch(ext: string, i: nat)
    requires i < |Table| && Table[i].1 == ext
    requires forall j :: 0 <= j < i ==> Table[j].1 != ext
    ensures ContentType(ext) == Found(Table[i].0)
  {
  }

  /** `.mp4` resolves to `audio/acc`, the earlier of its two entries. */
  lemma Mp4ResolvesToAcc()
    ensures ContentType(".mp4") == Found("audio/acc")
    ensures ContentType(".mp4") != Found("audio/mp4")
  {
    ContentTypeFirstMatch(".mp4", 1);
  }

  /** A MIME type that is not a key maps to `''`, and `''` maps back to no type. */
  lemma UnlistedTypeRoundTrip(ct: string)
    requires forall i :: 0 <= i < |Table| ==> Table[i].0 != ct
    ensures ContentExt(ct) == ""
    ensures ContentType(ContentExt(ct)) == NoMatch
  {
  }

  /**
   * Round trip from a listed MIME type: `content_type(content_ext(ct))`
   * finds a listed type with the same extension, and that type is `ct`
   * itself exactly when `ct` is not `audio/mp4`.
   */
  lemma {:induction false} ListedTypeRoundTrip(i: nat)
    requires i < |Table|
    ensures ContentType(ContentExt(Table[i].0)).Found?
    ensures ContentExt(ContentType(ContentExt(Table[i].0)).mime) == ContentExt(Table[i].0)
    ensures ContentType(ContentExt(Table[i].0)) == Found(Table[i].0) <==> Table[i].0 != "audio/mp4"
  {
    var ct := Table[i].0;
    assert ContentExt(ct) == Table[i].1;
    OnlyMp4Shared();
    if i == 2 {
      Mp4ResolvesToAcc();
    } else {
      ContentTypeFirstMatch(Table[i].1, i);
      assert ct != "audio/mp4" by {
        KeysDistinct();
        assert Table[2].0 == "audio/mp4";
      }
    }
  }
}
