/**
 * The k-anonymity table builder: every non-empty input line is hashed
 * together with a salt, and the lowercase hex of each digest is filed under
 * the digest's first `prefixLength` bytes.
 *
 * The source runs one goroutine per line and appends to the shared table
 * under a mutex; here the lines are processed one after the other, in input
 * order, and the first error of a per-line unit is kept as the error group
 * keeps it.
 */
module KAnonymity {
  import opened Wrappers
  import opened Bytes
  import opened HexEncoding
  import opened KAnonymityErrors

  /** A hash primitive: the digest a fresh hasher returns after being fed the given bytes. */
  type Hasher = Bytes -> Bytes

  /** A hash factory; `None` is a nil factory. */
  type HashFactory = Option<Hasher>

  /** Digest prefix (raw bytes) to the hex renderings of the full digests. */
  type Table = map<Bytes, seq<string>>

  /**
   * The input stream once it has been scanned: the lines the scanner
   * delivered, and whether it then stopped on a read error.
   */
  datatype Stream = Stream(lines: seq<Bytes>, readFailed: bool)

  /** What one line contributes: the key it is filed under and the value appended there. */
  datatype Entry = Entry(prefix: Bytes, hex: string)

  /**
   * The salted digest of one input. An empty input yields no digest and no
   * error, whatever the factory; otherwise a nil factory is an error, and a
   * present one hashes the salt and then the input.
   */
  function GenerateHash(input: Bytes, hashFactory: HashFactory, salt: Bytes): (r: Result<Option<Bytes>, Error>)
    ensures r == Ok(None) <==> |input| == 0
    ensures r.Err? <==> |input| > 0 && hashFactory.None?
    ensures r.Err? ==> r.error == NilHashFactory
    ensures r.Ok? && r.value.Some? ==> hashFactory.Some? && r.value.value == hashFactory.value(salt + input)
  {
    if |input| == 0 then Ok(None)
    else if hashFactory.None? then Err(NilHashFactory)
    else Ok(Some(hashFactory.value(salt + input)))
  }

  /**
   * The unit of work run for one non-empty line: hash it, reject a digest
   * shorter than the prefix, and otherwise produce the key (the digest's
   * first `prefixLength` bytes) and the value (the digest in hex). A nil
   * digest has length zero.
   */
  function ProcessLine(input: Bytes, hashFactory: HashFactory, prefixLength: int, salt: Bytes): (r: Result<Entry, Error>)
    requires prefixLength > 0
    ensures hashFactory.Some? && |input| > 0 ==>
              var digest := hashFactory.value(salt + input);
              && (r.Ok? <==> prefixLength <= |digest|)
              && (r.Ok? ==> |r.value.prefix| == prefixLength && r.value.prefix == digest[..prefixLength]
                              && Unhex(r.value.hex) == Some(digest))
              && (r.Err? ==> r.error == TooLargePrefix(prefixLength))
  {
    match GenerateHash(input, hashFactory, salt)
    case Err(e) => Err(HashFailed(e))
    case Ok(d) =>
      var digest := if d.Some? then d.value else [];
      if prefixLength > |digest| then Err(TooLargePrefix(prefixLength))
      else
        UnhexHex(digest);
        Ok(Entry(digest[..prefixLength], Hex(digest)))
  }

  /** The values under `key`; a missing key reads as an empty list, as a nil slice does. */
  function Lookup(t: Table, key: Bytes): seq<string> {
    if key in t then t[key] else []
  }

  /** Append `hex` to the list under `key`, creating the list if needed. */
  function Insert(t: Table, key: Bytes, hex: string): (t': Table)
    ensures t'.Keys == t.Keys + {key}
    ensures Lookup(t', key) == Lookup(t, key) + [hex]
    ensures forall k :: k in t && k != key ==> t'[k] == t[k]
  {
    t[key := Lookup(t, key) + [hex]]
  }

  /** The table after the unit of work of one more line: an empty line or a failing unit adds nothing. */
  function AddLine(t: Table, input: Bytes, hashFactory: HashFactory, prefixLength: int, salt: Bytes): Table
    requires prefixLength > 0
  {
    if input == [] then t
    else
      match ProcessLine(input, hashFactory, prefixLength, salt)
      case Ok(entry) => Insert(t, entry.prefix, entry.hex)
      case Err(_) => t
  }

  /** The table the successful units of work build from `lines`, appended in line order. */
  function Group(lines: seq<Bytes>, hashFactory: HashFactory, prefixLength: int, salt: Bytes): (t: Table)
    requires prefixLength > 0
    ensures forall k :: k in t ==> |k| == prefixLength
  {
    if lines == [] then map[]
    else
      AddLine(Group(lines[..|lines| - 1], hashFactory, prefixLength, salt), lines[|lines| - 1], hashFactory, prefixLength, salt)
  }

  /** The error of the unit of work of one line, if it fails; an empty line runs none. */
  function LineError(input: Bytes, hashFactory: HashFactory, prefixLength: int, salt: Bytes): Option<Error>
    requires prefixLength > 0
  {
    if input == [] then None
    else
      match ProcessLine(input, hashFactory, prefixLength, salt)
      case Ok(_) => None
      case Err(err) => Some(err)
  }

  /** The error of the first non-empty line whose unit of work fails, if any. */
  function FirstError(lines: seq<Bytes>, hashFactory: HashFactory, prefixLength: int, salt: Bytes): Option<Error>
    requires prefixLength > 0
  {
    if lines == [] then None
    else
      var e := FirstError(lines[..|lines| - 1], hashFactory, prefixLength, salt);
      if e.Some? then e else LineError(lines[|lines| - 1], hashFactory, prefixLength, salt)
  }

  /**
   * What building the table from `reader` yields: `Ok(None)` for a nil
   * reader, the configuration errors before anything is read, then a read
   * error, then the first per-line error, and otherwise the whole table.
   */
  function BuildMap(reader: Option<Stream>, hashFactory: HashFactory, prefixLength: int, salt: Bytes)
    : Result<Option<Table>, Error>
  {
    if reader.None? then Ok(None)
    else if hashFactory.None? then Err(NilHashFactory)
    else if prefixLength <= 0 then Err(BadPrefixLength(prefixLength))
    else if reader.value.readFailed then Err(ScannerFailed)
    else
      match FirstError(reader.value.lines, hashFactory, prefixLength, salt)
      case Some(e) => Err(WaitFailed(e))
      case None => Ok(Some(Group(reader.value.lines, hashFactory, prefixLength, salt)))
  }

  /**
   * Build the table: validate the arguments, then run the unit of work of
   * every non-empty line, appending to one map, then report a read error,
   * then the first unit's error, and otherwise return the map.
   */
  method GenerateMap(reader: Option<Stream>, hashFactory: HashFactory, prefixLength: int, salt: Bytes)
    returns (r: Result<Option<Table>, Error>)
    ensures r == BuildMap(reader, hashFactory, prefixLength, salt)
    ensures reader.None? ==> r == Ok(None)
    ensures reader.Some? && hashFactory.None? ==> r == Err(NilHashFactory)
    ensures reader.Some? && hashFactory.Some? && prefixLength <= 0 ==> r == Err(BadPrefixLength(prefixLength))
  {
    if reader.None? {
      return Ok(None);
    }
    if hashFactory.None? {
      return Err(NilHashFactory);
    }
    if prefixLength <= 0 {
      return Err(BadPrefixLength(prefixLength));
    }

    var lines := reader.value.lines;
    var hashPrefixToHashes: Table := map[];
    var groupError: Option<Error> := None;
    var i := 0;
    while i < |lines|
      invariant 0 <= i <= |lines|
      invariant hashPrefixToHashes == Group(lines[..i], hashFactory, prefixLength, salt)
      invariant groupError == FirstError(lines[..i], hashFactory, prefixLength, salt)
    {
      var input := lines[i];
      assert lines[..i + 1][..i] == lines[..i];
      ghost var table, failure := hashPrefixToHashes, groupError;
      assert Group(lines[..i + 1], hashFactory, prefixLength, salt)
          == AddLine(table, input, hashFactory, prefixLength, salt);
      assert FirstError(lines[..i + 1], hashFactory, prefixLength, salt)
          == if failure.Some? then failure else LineError(input, hashFactory, prefixLength, salt);
      if input != [] {
        var outcome := ProcessLine(input, hashFactory, prefixLength, salt);
        if outcome.Ok? {
          hashPrefixToHashes := Insert(hashPrefixToHashes, outcome.value.prefix, outcome.value.hex);
          assert hashPrefixToHashes == AddLine(table, input, hashFactory, prefixLength, salt);
          assert LineError(input, hashFactory, prefixLength, salt) == None;
        } else {
          if groupError.None? {
            groupError := Some(outcome.error);
          }
          assert table == AddLine(table, input, hashFactory, prefixLength, salt);
          assert LineError(input, hashFactory, prefixLength, salt) == Some(outcome.error);
        }
      }
      i := i + 1;
    }
    assert lines[..|lines|] == lines;

    if reader.value.readFailed {
      return Err(ScannerFailed);
    }
    if groupError.Some? {
      return Err(WaitFailed(groupError.value));
    }
    return Ok(Some(hashPrefixToHashes));
  }
}
