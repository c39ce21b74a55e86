# k-anonymity table builder, modelled in Dafny

The system builds a k-anonymity lookup table. It reads a stream of input
lines. It hashes every non-empty line together with a salt (the salt first,
then the line). It files the lowercase hex of each digest under the digest's
first `prefixLength` bytes. A client can later ask for one short prefix and
compare the returned full digests locally.

The model covers the two functions of `pkg/k_anonymity/k_anonymity.go` and
the error sentinels of `pkg/errors/errors.go`:

- `generateHash` becomes the function `KAnonymity.GenerateHash`. The hash
  factory is an `Option` of a total function `Bytes -> Bytes`: `None` stands
  for a nil factory, and a present one is an arbitrary hash primitive. The
  two `Write` calls followed by `Sum` become one hash of `salt + input`.
- `GenerateMap` becomes the method `KAnonymity.GenerateMap`. It runs the
  three configuration checks, then a `while` loop over the lines that
  updates a local map, then the read-error check, then the error-group
  check. Each goroutine body is the pure function `KAnonymity.ProcessLine`.
  The loop keeps the table and the first error of a unit of work. Its
  invariants tie both to the specification functions `Group` and
  `FirstError` of the lines processed so far. The method is proved to return
  `BuildMap(...)`. The lemmas in `TableProperties` state what the source
  promises about `BuildMap`.
- The reader is an `Option<Stream>`. `None` is a nil reader. A `Stream`
  holds the lines the scanner delivered and whether it then stopped on a read
  error.
- Errors are kinds, not messages: `KAnonymityErrors.Error` keeps the wrapping
  structure (`generate hash: %w`, `scanner: %w`, `errgroup wait: %w`). The
  predicate `Is` plays the part of Go's `errors.Is` for the three sentinels.
  A too-large prefix wraps both `ErrBadPrefixLength` and `ErrTooLargePrefix`.
- `fmt.Sprintf("%x", digest)` is `HexEncoding.Hex`, with the decoder `Unhex`
  as its partner.

Files: `wrappers.dfy` (Option, Result), `bytes.dfy` (the byte type),
`errors.dfy`, `hex_encoding.dfy`, `k_anonymity.dfy` (the core) and
`table_properties.dfy` (the properties).

Where the design text and the code differ, the model follows the code:

- `generateHash` tests for empty input before it tests for a nil factory.
  Empty input therefore yields no digest and no error even when the factory
  is nil.
- `scanner.Err()` is checked before `errGroup.Wait()`. A read error therefore
  wins over a too-large-prefix error from an earlier line.
- A nil reader returns a nil map and no error. This is `Ok(None)`, which is
  distinct from `Ok(Some(map[]))`, the result for a stream with no non-empty
  lines.

## Model

| member | source | states |
|---|---|---|
| `KAnonymity.GenerateHash` | pkg/k_anonymity/k_anonymity.go:15-29 | no digest and no error exactly for empty input, whatever the factory; an error exactly for non-empty input with a nil factory, and it is the nil-factory error; otherwise the digest of salt followed by input |
| `KAnonymity.ProcessLine` | pkg/k_anonymity/k_anonymity.go:64-88 | for a non-empty line and a present factory: succeeds exactly when the digest is at least `prefixLength` long; the key is then the digest's first `prefixLength` bytes and the value decodes back to the digest; otherwise the error is the too-large-prefix one |
| `KAnonymity.Insert` | pkg/k_anonymity/k_anonymity.go:82-85 | appending under a key adds that key, extends its list by the one value, and leaves every other key's list unchanged |
| `KAnonymity.Group` | pkg/k_anonymity/k_anonymity.go:51-90 | every key of the table built from the lines has length `prefixLength` |
| `KAnonymity.GenerateMap` | pkg/k_anonymity/k_anonymity.go:31-101 | the method computes `BuildMap`: a nil reader gives no table and no error; then a nil factory gives the nil-factory error; then `prefixLength <= 0` gives the bad-prefix-length error; the loop's invariants keep the table and the first unit error equal to those of the lines processed so far |
| `HexEncoding.Hex` | pkg/k_anonymity/k_anonymity.go:85 | the rendering has two characters per byte, each a digit or a lowercase letter `a` to `f` |
| `HexEncoding.UnhexHex` | pkg/k_anonymity/k_anonymity.go:85 | decoding the hex rendering of a digest gives the digest back |
| `HexEncoding.HexInjective` | pkg/k_anonymity/k_anonymity.go:85 | two digests with the same hex rendering are equal |
| `TableProperties.EmptySaltHashesBareInput` | pkg/k_anonymity/k_anonymity.go:24-28 | with an empty salt the digest is the hash of the bare input |
| `TableProperties.ConfigurationErrorsPrecedeReading` | pkg/k_anonymity/k_anonymity.go:37-49 | with a nil factory or a non-positive prefix length the outcome does not depend on the stream's contents; it is the nil-factory error or else the bad-prefix-length error, with the matching sentinel and never the too-large one |
| `TableProperties.ReadErrorDiscardsTable` | pkg/k_anonymity/k_anonymity.go:92-94 | a read error yields the scanner error and no table, whatever lines were read before it; that error wraps none of the sentinels |
| `TableProperties.EmptyLinesIgnoredByGroup` | pkg/k_anonymity/k_anonymity.go:58-61 | the table built from the lines equals the table built from the non-empty lines alone |
| `TableProperties.EmptyLinesIgnoredByFirstError` | pkg/k_anonymity/k_anonymity.go:58-61 | the first unit error for the lines equals that for the non-empty lines alone |
| `TableProperties.BuildMapIgnoresEmptyLines` | pkg/k_anonymity/k_anonymity.go:57-61 | a stream and the same stream with its empty lines removed give the same outcome |
| `TableProperties.BlankStreamGivesEmptyTable` | pkg/k_anonymity/k_anonymity.go:51-61 | a stream of only empty lines, or of none, gives a present, empty table and no error |
| `TableProperties.FirstErrorIsTooLargePrefix` | pkg/k_anonymity/k_anonymity.go:71-80 | with a present factory, no unit fails exactly when every non-empty line's digest is at least `prefixLength` long; a failure is always the too-large-prefix error |
| `TableProperties.BuildMapSucceedsIff` | pkg/k_anonymity/k_anonymity.go:92-100 | over a present stream the build succeeds exactly when the prefix length is positive, the stream read without error and every non-empty line's digest is long enough; a success always carries a table |
| `TableProperties.TooShortDigestFailsBuild` | pkg/k_anonymity/k_anonymity.go:71-98 | one non-empty line with a too-short digest makes the build return the error-group error around the too-large-prefix error, and no table; that error is both `ErrBadPrefixLength` and `ErrTooLargePrefix` |
| `TableProperties.EntriesComeFromLines` | pkg/k_anonymity/k_anonymity.go:82-85 | every value under key `k` is the hex of the salted digest of some non-empty input line, and `k` is that digest's first `prefixLength` bytes |
| `TableProperties.ValuesDecodeUnderTheirKey` | pkg/k_anonymity/k_anonymity.go:82-85 | every stored value decodes to a digest whose first `prefixLength` bytes are the key it is stored under |
| `TableProperties.KeysArePrefixesOfDigests` | pkg/k_anonymity/k_anonymity.go:82-85 | the key set is exactly the set of prefixes of the digests of the non-empty lines whose digests are long enough, so it does not depend on line order |
| `TableProperties.AllValuesInsert` | pkg/k_anonymity/k_anonymity.go:85 | one append adds exactly one value to the table's contents, counted with multiplicity |
| `TableProperties.TableHoldsAppendedValues` | pkg/k_anonymity/k_anonymity.go:57-89 | the table's values, as a multiset over all keys, are exactly the hex digests of the non-empty lines with long enough digests |
| `TableProperties.KeyHoldsItsLines` | pkg/k_anonymity/k_anonymity.go:57-89 | the list under any key holds, as a multiset, exactly the hex digests of the non-empty lines whose long-enough digests start with that key |
| `TableProperties.AppendedCountsLines` | pkg/k_anonymity/k_anonymity.go:57-89 | when every digest is long enough, one value is appended per non-empty line, and a line's hex digest is appended at least once per occurrence of the line |
| `TableProperties.SuccessKeepsEveryLine` | pkg/k_anonymity/k_anonymity.go:57-100 | on success the returned table holds one value per non-empty line and no other; duplicate lines are kept, one value per occurrence |
| `TableProperties.ExampleLookup` | pkg/k_anonymity/k_anonymity.go:82-85 | appending digests a, b, a under their two-byte prefixes gives exactly the two prefixes as keys and stores a's hex twice under its prefix, three times if b equals a |
| `TableProperties.ExampleDuplicateAndBlankLines` | pkg/k_anonymity/k_anonymity.go:51-100 | for the lines a, "", b, a and a two-byte prefix: the same table as without the blank line, keys the two digest prefixes, and a's digest stored twice under its prefix, or three times if b has the same digest |

## Left out

- Concurrency: the goroutine per line, the `errgroup`, the mutex and the
  unused context (`pkg/k_anonymity/k_anonymity.go:53-54, 63, 83-84`). Lines
  are processed one after the other, in input order. The only thing this
  fixes is the order within each key's list. The properties about contents
  are stated as multisets and key sets, which do not depend on that order.
  Every unit-of-work error carries the same prefix length, so which error
  comes first does not change the result.
- Goroutines that are still running when a read error is returned are not
  modelled. Their appends go to a map that is discarded.
- `bufio.Scanner`: splitting on `\n`, dropping `\r`, and the 64 KiB token
  limit. The stream is given already split into lines, and a read error is a
  flag.
- The concrete hash algorithm (SHA-256 in the command-line tool) and the
  streaming `hash.Hash` interface. The hash is an arbitrary function of the
  bytes fed in.
- Error messages, `%d` formatting and stack traces from the error helpers.
  Only the error kind, its wrapping and its sentinels are kept. The I/O error
  inside the scanner error is not modelled.
- `cmd/generate_map/generate_map.go`: flag parsing, opening the input,
  generating the source literal and writing the output. Its own
  `prefixLength <= 0` check repeats the library's check.
- Hash collisions: a hash is not assumed injective. The count property
  therefore says "at least once per occurrence" per line, together with the
  exact total.
