# Registry image catalog: a Dafny model

This project models the docker-registry side of the `repository` package. The package
turns a repository's tags into image records for a set of branches. What is modelled:

- **Tag parsing** (`getImagesForBranch`). A tag is split at its *last* `-`. A tag without
  `-` becomes a record with no revision and no timestamp. Otherwise the text before the
  `-` must parse as a base-10 int64, using Go's `strconv.ParseInt(s, 10, 0)` on a 64-bit
  platform. That value is the record's Unix seconds, and the text after the `-` is its
  revision. A tag whose prefix does not parse is dropped without any error.
- **The best-effort merge** (`GetRepository`). Each branch's fetch sends one result on a
  channel. The results are drained in whatever order they arrive. The images are
  concatenated and the last error seen is kept. The error is returned only if no image was
  gathered at all.
- **References** (`FullName`). A reference has the form `<base URL>/[<namespace>/]<repo>:<tag>`.
  `getRepository` applies the same namespace prefix.
- **The single-registry credential store** (`basicCredentialStore`).

Files:

- `wrappers.dfy`: `Option` and `Result`.
- `strings.dfy`: `strings.LastIndex`.
- `strconv.dfy`: `ParseInt`, plus `FormatInt` as its inverse.
- `filtermaps.dfy`: the generic "append what parses, `continue` otherwise" loop shape and
  its lemmas.
- `registry.dfy`: everything from `repository/registry.go`.

How the model represents the Go program:

- **Tag listing.** Obtaining a repository's tag list (name validation, the authentication
  probe, `Tags.All`) is network work. It is an input here: a `Listing` is either the raw
  tags or the error that stopped the fetch.
- **Timestamps.** `LastModified` is `Option<int>`. `None` is Go's zero `time.Time`, and
  `Some(s)` is `time.Unix(s, 0)`, so `time.Unix(0, 0)` and "unset" are distinct values.
- **Goroutines.** The goroutines and the channel become a fan-out loop that puts one
  `BranchResult` per branch into a multiset. The drain loop then picks an arbitrary element
  with `:|`. So everything `GetRepository` ensures holds for every delivery order, and the
  ghost output `delivered` records the order that was taken.

Edge cases of the code that the model keeps as they are:

- **Timestamp without revision.** A tag such as `123-` gets timestamp 123 and an empty
  revision (`EmptyRevisionTag`).
- **Empty tags.** An empty tag contains no `-`, so it is kept like any other tag without
  `-`: a record with no revision and no timestamp.
- **`FullName` errors.** `FullName` always returns a nil error, so the model returns only
  the string.

## Model

| member | source | states |
|---|---|---|
| `Strings.LastIndex` | repository/registry.go:115 | the result is -1 or a position of `-`, and no `-` occurs after it |
| `Strings.LastIndexAbsent` | repository/registry.go:115-116 | `LastIndex` is -1 exactly when the tag has no `-` |
| `Strings.LastIndexOfJoin` | repository/registry.go:115-117 | in `p + "-" + r` with no `-` in `r`, the split point is right after `p` |
| `Strconv.ParseInt` | repository/registry.go:118 | an accepted value always lies in the int64 range |
| `Strconv.ParseIntAccepts` | repository/registry.go:118 | an accepted string is non-empty and is an optional sign followed by one or more digits; its value is the decimal value of those digits, negated after `-`, and lies in the int64 range |
| `Strconv.ParseDigits` | repository/registry.go:118 | any non-empty digit string, leading zeros included, parses to its decimal value if that is at most 2^63-1 and fails otherwise |
| `Strconv.ParseFormatInt` | repository/registry.go:118 | round trip: every int64 rendered in base 10 parses back to itself |
| `Strconv.ParseDecimal` | repository/registry.go:118 | an unsigned numeral up to 2^63-1 parses to its value |
| `Strconv.ParseNegativeDecimal` | repository/registry.go:118 | `-` plus a numeral up to 2^63 parses to the negated value |
| `Strconv.ParseOutOfRange` | repository/registry.go:118-121 | numerals beyond the int64 range fail, unsigned, with `+`, or with `-` |
| `Strconv.ParsePlusDigits` | repository/registry.go:118 | a leading `+` before a digit string changes nothing |
| `Strconv.ParseMinusDigits` | repository/registry.go:118 | `-` before a digit string parses to the negated value if the value is at most 2^63, and fails otherwise |
| `Strconv.LeadingZerosExamples` | repository/registry.go:118 | `007` parses to 7 and `-0` to 0 |
| `Strconv.DecimalIsNumeral` | repository/registry.go:118 | the decimal rendering is a non-empty digit string whose value is the number |
| `Registry.ParseTag` | repository/registry.go:111-125 | a record keeps the raw tag and the branch label; its timestamp is unset iff the tag has no `-`; a tag is dropped iff it has a `-` and the text before the last `-` does not parse |
| `Registry.ParseTagRecord` | repository/registry.go:110-125 | a kept record has the raw tag and the branch label, and its revision has no `-`; the timestamp is unset iff the tag has no `-`, and then the revision is empty too |
| `Registry.NoSeparatorTag` | repository/registry.go:111-116 | a tag without `-` always yields exactly one record: empty revision, unset timestamp |
| `Registry.ValidPrefixTag` | repository/registry.go:115-123 | `p-r` with `p` parsing to `n` yields revision `r` (possibly empty) and timestamp `n` |
| `Registry.InvalidPrefixTag` | repository/registry.go:115-121 | `p-r` with `p` not parsing yields no record and no error |
| `Registry.TimestampedTag` | repository/registry.go:115-123 | the convention `<int64 seconds>-<rev>` yields exactly those seconds and that revision |
| `Registry.OutOfRangeTag` | repository/registry.go:118-121 | a timestamp prefix beyond int64 drops the tag |
| `Registry.NegativeTimestampTag` | repository/registry.go:115-123 | `-5-abc` splits at the last `-`, giving timestamp -5 and revision `abc` |
| `Registry.EmptyRevisionTag` | repository/registry.go:115-123 | `123-` gives timestamp 123 and an empty revision |
| `Registry.LeadingZerosTag` | repository/registry.go:115-123 | `0005-abc` gives timestamp 5 and revision `abc` |
| `Registry.DroppedTagExamples` | repository/registry.go:117-121 | `abc-xyz` and `-abc` (empty prefix) are dropped |
| `Registry.ParsedTags` | repository/registry.go:109-127 | the loop never yields more records than there are tags |
| `Registry.ParsedTagsAreKeptTags` | repository/registry.go:109-127 | the output is exactly the parseable tags, in input order: kept positions increase, a position is kept iff its tag parses, and the k-th record is the parse of the k-th kept tag |
| `Registry.ParsedTagsRecords` | repository/registry.go:109-127 | every record carries the branch label and the tag at its kept position, so the tags form a subsequence of the input |
| `Registry.ParsedTagsWithoutSeparators` | repository/registry.go:110-125 | tags without `-` are all kept, in order, with no metadata |
| `Registry.BranchOutcome` | repository/registry.go:98-107 | a branch reports an error iff its listing failed, and then it has no images; once tags are obtained there is no error |
| `Registry.GetImagesForBranch` | repository/registry.go:98-128 | the parsing loop with `continue` computes exactly the branch outcome |
| `Registry.AllImagesEmpty` | repository/registry.go:58-65 | the concatenated images are empty iff every result brought none |
| `Registry.LastErrorIsLast` | repository/registry.go:59-63 | the kept error is absent iff no result erred; otherwise it belongs to a result after which none erred |
| `Registry.Outcome` | repository/registry.go:67-69 | the return fails iff no image was gathered and an error was kept, and then it returns that error; otherwise it returns the images |
| `Registry.Merge` | repository/registry.go:58-69 | on success the result is the images of all results in delivery order, as gathered before the sort; on failure no image was gathered and the error is the last one delivered |
| `Registry.MergeRule` | repository/registry.go:58-69 | the merge fails iff no result has images and some result erred, with the last error delivered; otherwise it returns the concatenation in delivery order |
| `Registry.AllSucceedWithoutTags` | repository/registry.go:58-72 | all branches succeeding with no tags gives an empty list and no error |
| `Registry.HealthyBranchWins` | repository/registry.go:64-69 | one branch with images means no error, and every one of its images is in the result (as a multiset) |
| `Registry.AllImagesPermutation` | repository/registry.go:60-65 | the delivery order changes only the order of the images, not their multiset |
| `Registry.MergeOrderIndependent` | repository/registry.go:58-69 | whether the merge fails, and the multiset of images it returns, are the same for every delivery order |
| `Registry.BranchOutcomesMergeRule` | repository/registry.go:58-69 | over branch outcomes: failure iff no branch has images and some listing failed |
| `Registry.DeliveredOutcomes` | repository/registry.go:42-69 | for any delivery order of the branch outcomes: failure iff no branch has images and some listing failed; success holds every branch's images |
| `Registry.GetRepository` | repository/registry.go:42-72 | every branch result is delivered exactly once, the result is the merge of the delivery, it fails iff no branch has images and some listing failed, and on success it holds every branch's images |
| `Registry.OneBranchFailsExample` | repository/registry.go:58-69 | one branch with two records and one failed branch give the two records and no error, in either order |
| `Registry.BothBranchesFailExample` | repository/registry.go:58-69 | two failed branches give the error delivered last |
| `Registry.RepositoryName` | repository/registry.go:131-133 | with no namespace the name is the repo; otherwise it is `namespace/repo`; in both cases it ends with the repo |
| `Registry.FullName` | repository/registry.go:91-96 | the reference starts with `<base URL>/`, ends with `:<tag>`, and holds exactly the repository name between them |
| `Registry.FullNameShape` | repository/registry.go:91-96 | the reference is `base/repo:tag` with no namespace and `base/namespace/repo:tag` with one |
| `Registry.FullNameSplits` | repository/registry.go:91-96 | for a tag without `:`, cutting the reference at its last `:` recovers the tag and `base/` plus the name `getRepository` resolves |
| `Registry.FullNameExample` | repository/registry.go:91-96 | `https://reg.example.com` with namespace `team`, repo `svc` and tag `v1` gives `https://reg.example.com/team/svc:v1` |
| `Registry.CredentialStoreFor` | repository/registry.go:139-142 | the store built from the configuration answers `Basic` with the configured username and password for every URL |
| `Registry.Basic` | repository/registry.go:174-176 | the credentials are the store's username and password, whatever the URL |
| `Registry.RefreshToken` | repository/registry.go:178-180 | no refresh token is ever returned |
| `Registry.SetRefreshToken` | repository/registry.go:182-183 | the store is unchanged, so every later `RefreshToken` is still empty |
| `Registry.CredentialsFromConfig` | repository/registry.go:174-183 | `Basic` returns the configured username and password for any URL; `SetRefreshToken` keeps nothing, so `RefreshToken` is always empty |

## Left out

- Goroutines, `sync.WaitGroup` and the buffered channel (repository/registry.go:43-56) are not modelled as concurrency. The model replaces them with a sequential fan-out loop and a drain that takes the results in an arbitrary order.
- `getRepository`'s network and authentication work is not modelled: `reference.ParseNamed`, the `http.Get` probe of `<base URL>/v2/`, the challenge manager, the token and basic authorizers, `client.NewRepository` and `Tags.All` (repository/registry.go:134-164, 104). These are foreign library calls and I/O. Their combined effect is the `Listing` input.
- `GetTag` (repository/registry.go:76-88) is not modelled. It is one remote digest lookup that passes its errors straight through, and it has no logic of its own.
- Registry.GetRepository: returns the merged list before `sortByLastModified` (repository/registry.go:71). That function is not part of this model, so the model claims no ordering for it.
- Registry.Outcome: its success value is the gathered list, not the list `sortByLastModified` reorders in place at repository/registry.go:71.
- Registry.Merge: its success value is the concatenation in delivery order, before the sort at repository/registry.go:71.
- Registry.MergeRule: the concatenation it states is the list before the sort at repository/registry.go:71.
- Registry.OneBranchFailsExample: the order it gives is the delivery order, before the sort at repository/registry.go:71.
- `InitRegistry` and the package-level `dockerService` variable are not modelled. They are a global assignment.
- Strconv.ParseInt: models `bitSize` 0 as 64 bits, assuming a 64-bit platform. The two error kinds (syntax and range) are merged into `None`, because the caller only tests `err != nil`.
- Error values are opaque (`FetchError` with a message). The model does not distinguish the different errors the fetch can produce.
- `time.Time` is modelled only as "Unix seconds, or unset", with no calendar, time zone or nanoseconds. Go's `time.Unix(-62135596800, 0).IsZero()` is true, but the model keeps that record as `Some(-62135596800)`.
- Strings are sequences of characters, while Go's strings are bytes. `-` and `:` are ASCII and never occur inside a multi-byte UTF-8 sequence, so splitting at them gives the same prefix and revision text, although byte positions and character positions differ.
- A Go nil slice and an empty slice are both the empty sequence. The only test on them is `len(images) == 0`.
