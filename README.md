# aws_sdk_utility — a Dafny model of its internal logic

`AwsSdkUtility` is a Ruby module that wraps the AWS SDK (version 1) for S3
and CloudFront. Nearly all of it hands calls straight to the SDK. This
project models the few parts that make their own decisions:

- **Content-type table** (`ContentTypes`, `content_types.dfy`). `CONTENT_TYPE_TO_EXT`
  is an ordered list of (MIME type, extension) pairs. `content_ext` looks up
  the extension for a MIME type and gives `''` for an unlisted type.
  `content_type` scans the pairs in order and returns the first MIME type
  with the given extension. `.mp4` is listed twice, so it resolves to
  `audio/acc` and never to `audio/mp4`.
- **Retry wrapper** (`Retry`, `retry.dfy`). `run_with_retry` runs a block.
  It retries only on `AWS::S3::Errors::RequestTimeout`, and at most three
  times, so the block runs at most four times. Before each retry it sets
  the cached `@bucket` to nil. Nothing reads `@bucket`, though: `bucket`
  builds a new handle on every call. So the reset has no visible effect,
  and the model only counts it. After the fourth timeout it reports the
  error once to Bugsnag, with the HTTP body attached, and then re-raises it. Any other
  error propagates at once. The block is modelled as a function from the
  attempt number to that attempt's outcome. `RunWithRetry` is the loop, and
  it is proved equal to the recursive definition `RetryFrom`.
- **Expiration clamp** (`Expiration`, `expiration.dfy`). `doomsday` returns
  now + 20 years, capped at 2038-01-18. That is two days before 2038-01-20,
  the limit the source's comment gives for the storage service.
- **Option handling of the object operations** (`ObjectOptions`,
  `object_options.dfy`). This covers:
  - picking the bucket, where a `:bucket` option overrides the configured one;
  - the signed read URL: none for a missing object, `secure` by default, expiry from `doomsday`;
  - filling in `:content_type` in place when the caller did not give one;
  - the attachment name, which gets the listed extension appended;
  - copying, which happens only when the source object exists.
- **Chunked download** (`LargeDownload`, `large_download.dfy`). Each chunk is
  appended to the file. A counter prints one dot each time it passes 1000.

The storage service is abstract. `Env` holds the configured bucket name,
the current instant, the add-twenty-years step and the SDK's `exists?`
answer for each object.

The model follows the code exactly, including three behaviours a reader might not expect:

- `content_type` with an unknown extension does not return nil. Ruby's
  `Hash#each` returns the hash itself, so `s3_store_file` stores the whole
  table under `:content_type`. The model keeps this as `TypeLookup.NoMatch`
  and `OptValue.ContentTable`.
- The progress dot appears once every 1001 chunks, not every 1000. The
  counter resets only when it is greater than 1000.
- Only `s3_store_file` infers a content type. `s3_store` passes its options
  through unchanged.

## Model

| member | source | states |
|---|---|---|
| ContentTypes.IndexOfType | lib/aws_sdk_utility.rb:225-227 | the keyed lookup finds the first position holding the MIME type, or the end of the table when no pair has it |
| ContentTypes.IndexOfExt | lib/aws_sdk_utility.rb:219-223 | the in-order scan stops at the first pair whose extension matches; every earlier pair has a different extension; it reaches the end only when none matches |
| ContentTypes.KeysDistinct | lib/aws_sdk_utility.rb:203-217 | no MIME type is listed twice, so the first-match lookup is the hash lookup |
| ContentTypes.OnlyMp4Shared | lib/aws_sdk_utility.rb:203-217 | the only extension shared by two entries is `.mp4` (`audio/acc` and `audio/mp4`) |
| ContentTypes.ContentExt | lib/aws_sdk_utility.rb:225-227 | a listed MIME type gives its extension from the table; an unlisted one gives `''` |
| ContentTypes.ContentType | lib/aws_sdk_utility.rb:219-223 | no match exactly when no pair has the extension; a found MIME type's own extension is the argument |
| ContentTypes.ContentTypeFirstMatch | lib/aws_sdk_utility.rb:219-223 | the first pair in table order with the extension decides the result |
| ContentTypes.Mp4ResolvesToAcc | lib/aws_sdk_utility.rb:203-222 | `content_type('.mp4')` is `audio/acc`, never `audio/mp4` |
| ContentTypes.UnlistedTypeRoundTrip | lib/aws_sdk_utility.rb:219-227 | an unlisted MIME type maps to `''`, and `''` maps back to no type |
| ContentTypes.ListedTypeRoundTrip | lib/aws_sdk_utility.rb:203-227 | for every listed type, `content_type(content_ext(ct))` finds a listed type with the same extension; it is `ct` itself exactly when `ct` is not `audio/mp4` |
| Retry.RetryFrom | lib/aws_sdk_utility.rb:125-140 | at most MaxTry+1 attempts; every attempt before the last timed out; the last attempt's value is returned or its error raised; a timeout is raised only on attempt MaxTry+1; one bucket reset per retry; exactly one report, carrying the HTTP body, only when the raised error is a timeout |
| Retry.RunWithRetry | lib/aws_sdk_utility.rb:125-140 | the counting loop produces exactly the outcome, attempt count, bucket resets and reports of the recursive definition |
| Retry.AttemptBound | lib/aws_sdk_utility.rb:126-135 | the block runs between one and four times, and at most one report is sent |
| Retry.ReturnsFirstSuccess | lib/aws_sdk_utility.rb:128-138 | after k ≤ 3 timeouts, a success is returned unchanged, with k + 1 attempts, k bucket resets and no report |
| Retry.OtherErrorPropagates | lib/aws_sdk_utility.rb:128-130 | a non-timeout error after k timeouts is raised on that attempt, with no further attempt, no report and no extra bucket reset |
| Retry.ExhaustionReportsOnce | lib/aws_sdk_utility.rb:131-138 | four timeouts make four attempts; the fourth timeout is reported once with its HTTP body and then re-raised; there were three bucket resets |
| Retry.TimeoutsThenSuccess | lib/aws_sdk_utility.rb:125-140 | n timeouts then success: the value is returned unreported if n ≤ 3; otherwise the fourth timeout is raised after four attempts and reported once |
| Retry.ReportedIffExhausted | lib/aws_sdk_utility.rb:131-135 | a report is sent if and only if all four attempts timed out |
| Expiration.Doomsday | lib/aws_sdk_utility.rb:142-152 | the result is the earlier of now + 20 years and 2038-01-18: at most each of them, and equal to one of them |
| Expiration.DoomsdayUnclamped | lib/aws_sdk_utility.rb:143-151 | when now + 20 years is not past the ceiling, it is the result |
| Expiration.DoomsdayClamped | lib/aws_sdk_utility.rb:149-150 | when now + 20 years is past the ceiling, the result is the ceiling, however far past |
| Expiration.DoomsdayMonotone | lib/aws_sdk_utility.rb:142-152 | if adding twenty years is monotone, a later instant never gives an earlier expiry |
| ObjectOptions.ResolveObject | lib/aws_sdk_utility.rb:165-168 | the object keeps the given name; its bucket is the `:bucket` option when present, and the configured bucket otherwise |
| ObjectOptions.ObjectUrl | lib/aws_sdk_utility.rb:154-159 | nil exactly when the resolved object does not exist; otherwise a URL for that object, secure unless `:secure` is given (then its value), expiring exactly at `doomsday`'s instant, so never after the ceiling or now + 20 years |
| ObjectOptions.StoreResult | lib/aws_sdk_utility.rb:117-123 | after the write, the block yields the object's signed URL when the object exists, and nil otherwise |
| ObjectOptions.WithContentType | lib/aws_sdk_utility.rb:106-109 | `:content_type` is always present afterwards; a caller's value is kept; a missing one is looked up from the extension; every other key and value is unchanged |
| ObjectOptions.InferredTypeListed | lib/aws_sdk_utility.rb:107-108 | a missing content type for a listed extension becomes the first MIME type listed for it |
| ObjectOptions.InferredTypeUnlisted | lib/aws_sdk_utility.rb:107-108 | a missing content type for an unlisted extension becomes the table itself, never a MIME string |
| ObjectOptions.WithContentTypeIdempotent | lib/aws_sdk_utility.rb:107-109 | filling in the content type a second time changes nothing |
| ObjectOptions.OptionsHash.FillContentType | lib/aws_sdk_utility.rb:107-109 | the caller's hash is updated in place to the filled-in options |
| ObjectOptions.StoreFile | lib/aws_sdk_utility.rb:106-115 | the caller's hash ends up with the filled-in content type, and the store runs with the updated options |
| ObjectOptions.AttachmentTarget | lib/aws_sdk_utility.rb:170-173 | the stored name is the attachment name followed by the table's extension for its content type (nothing for an unlisted type); the only option is that content type |
| ObjectOptions.AttachmentExtensionRoundTrip | lib/aws_sdk_utility.rb:170-171 | the appended extension leads back to the attachment's content type exactly when that type is not `audio/mp4` |
| ObjectOptions.CopyPlan | lib/aws_sdk_utility.rb:99-104 | a copy is requested exactly when the resolved source exists; it copies that object to the given target with the target options |
| ObjectOptions.LargeDownloadOptionsAsWritten | lib/aws_sdk_utility.rb:187 | the options passed on always contain `:bucket`, which is nil when the caller gave none |
| ObjectOptions.LargeDownloadIgnoresConfiguredBucket | lib/aws_sdk_utility.rb:185-187 | with no `:bucket` option, a large download looks in the nil bucket, while a plain lookup uses the configured bucket |
| ObjectOptions.LargeDownloadOptions | lib/aws_sdk_utility.rb:187 | the corrected options hold `:bucket` exactly when the caller gave it, with the same value |
| ObjectOptions.LargeDownloadResolvesLikeDownload | lib/aws_sdk_utility.rb:175-187 | with the corrected options, a large download resolves the same object as a plain download |
| LargeDownload.WriteChunks | lib/aws_sdk_utility.rb:188-197 | the file holds all chunks in order; the output is only dots, one per completed run of 1001 chunks |

## Left out

- The AWS SDK calls are not modelled: `AWS.config`, `AWS::S3.new.buckets`, `objects[name]`, `write`, `read`, `exists?`, `copy_to`, `delete` and `url_for`. They are foreign code with no visible semantics. `exists?` appears only as the `Env.objectExists` predicate. A signed URL is modelled as the request passed to `url_for`, not as the URL string.
- `config`, `bucket` and `cdn` (lib/aws_sdk_utility.rb:54-77) are not modelled. They only build SDK clients. The effect of `bucket` on the cached `@bucket` is abstract, so the retry model only counts how often the cache is cleared.
- `create_invalidations`, `get_invalidation_update` and `get_invalidation_status` are not modelled. They are single CloudFront calls, and the caller reference comes from `DateTime.now`.
- The configuration getters and setters (lib/aws_sdk_utility.rb:13-67) are not modelled. They are plain field access.
- `s3_delete` is not modelled. It is one SDK call under the retry wrapper, on the object that `ResolveObject` gives for empty options.
- `s3_download_file` is not modelled. It reads the object and writes the whole body to a local file.
- File I/O is not modelled: `File.open` and `file.write`. The large download's file is modelled only as the bytes written to it.
- `File.extname` is not modelled. `StoreFile` takes the extension as a parameter.
- `Retry.RetryFrom` assumes that `$ERROR_INFO` holds the caught timeout. That alias of `$!` is defined by Ruby's `English` library, which lib/aws_sdk_utility.rb does not require itself, so the model assumes the host application loads it. Without it, `$ERROR_INFO` is nil and line 133 raises `NoMethodError` before any report is sent; that path is not modelled.
- Console output and Bugsnag internals are not modelled. The retry message is not printed. A report is modelled only as the HTTP body sent with it.
- `Retry.RetryFrom` models the block only as one outcome per attempt. What the block does to `@bucket` or to storage is not modelled.
- `ObjectOptions.StoreResult` models one run of `s3_store`'s block. Running it under `run_with_retry` is not modelled as a single call.
- Calendar arithmetic is not modelled: `Time.zone.now + 20.years` becomes a caller-supplied function on integer instants. The ceiling `Time.zone.parse('2038-01-18')` is read as UTC midnight, so the offset of the configured zone is not modelled.
- `spec/aws_sdk_utility_spec.rb` is not modelled. Its examples only check that a getter and SDK constructors return something.

## Findings

| source | as written | input that shows it | evidently intended | confidence | as-written member | corrected member |
|---|---|---|---|---|---|---|
| lib/aws_sdk_utility.rb:187 | `s3_download_large_file` calls `s3_get_object(name, bucket: opt[:bucket])`. The key `:bucket` is always present, so `bucket(nil)` runs instead of the default `bucket(s3_bucket)` | `s3_download_large_file('a', 'f')` with no options and a configured `s3_bucket` | use `opt[:bucket]` only when the caller supplied it, and otherwise the configured bucket, as `s3_download_file` does | medium, not executed | ObjectOptions.LargeDownloadOptionsAsWritten (shown by ObjectOptions.LargeDownloadIgnoresConfiguredBucket) | ObjectOptions.LargeDownloadOptions (proved by ObjectOptions.LargeDownloadResolvesLikeDownload) |
