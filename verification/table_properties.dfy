/**
 * What the table builder promises, proved about the specification functions
 * of module KAnonymity (which GenerateMap is proved to compute): the order of
 * the configuration checks, that empty lines contribute nothing, the prefix
 * invariant, the key set, that no value is lost or duplicated, and when the
 * build fails.
 */
module TableProperties {
  import opened Wrappers
  import opened Bytes
  import opened HexEncoding
  import opened KAnonymityErrors
  import opened KAnonymity

  /** The non-empty lines, in order. */
  function NonEmptyLines(lines: seq<Bytes>): (r: seq<Bytes>)
    ensures forall line :: line in r <==> line in lines && line != []
  {
    if lines == [] then []
    else
      var last := lines[|lines| - 1];
      NonEmptyLines(lines[..|lines| - 1]) + (if last == [] then [] else [last])
  }

  /**
   * Reference definition of the values a build appends: the hex of every
   * non-empty line's salted digest that is long enough for the prefix, in
   * line order.
   */
  function Appended(lines: seq<Bytes>, h: Hasher, prefixLength: int, salt: Bytes): seq<string> {
    if lines == [] then []
    else
      var last := lines[|lines| - 1];
      var digest := h(salt + last);
      Appended(lines[..|lines| - 1], h, prefixLength, salt)
        + (if last != [] && prefixLength <= |digest| then [Hex(digest)] else [])
  }

  /** The part of `Appended` whose digests start with `key`. */
  function AppendedUnder(lines: seq<Bytes>, h: Hasher, prefixLength: int, salt: Bytes, key: Bytes): seq<string>
    requires prefixLength >= 0
  {
    if lines == [] then []
    else
      var last := lines[|lines| - 1];
      var digest := h(salt + last);
      AppendedUnder(lines[..|lines| - 1], h, prefixLength, salt, key)
        + (if last != [] && prefixLength <= |digest| && digest[..prefixLength] == key then [Hex(digest)] else [])
  }

  /** Whether key `k` with value `v` is what some non-empty line of `lines` contributes. */
  ghost predicate ProducedBy(lines: seq<Bytes>, h: Hasher, prefixLength: int, salt: Bytes, k: Bytes, v: string) {
    exists line :: line in lines && line != [] && 0 <= prefixLength <= |h(salt + line)|
                   && k == h(salt + line)[..prefixLength] && v == Hex(h(salt + line))
  }

  ghost function PickKey(t: Table): Bytes
    requires t.Keys != {}
  {
    var k :| k in t; k
  }

  /** Every value of the table, under whatever key, counted with multiplicity. */
  ghost function AllValues(t: Table): multiset<string>
    decreases t.Keys
  {
    if t.Keys == {} then multiset{}
    else
      var k := PickKey(t);
      multiset(t[k]) + AllValues(t - {k})
  }

  // ---------------------------------------------------------------- digests

  /** Hashing under an empty salt is hashing the bare input. */
  lemma {:induction false} EmptySaltHashesBareInput(input: Bytes, h: Hasher)
    requires |input| > 0
    ensures GenerateHash(input, Some(h), []) == Ok(Some(h(input)))
  {
    assert [] + input == input;
  }

  // -------------------------------------------------- configuration checks

  /**
   * A nil factory or a non-positive prefix length is reported before any
   * line is read: the outcome is that error whatever the stream holds.
   */
  lemma {:induction false} ConfigurationErrorsPrecedeReading(s1: Stream, s2: Stream, hashFactory: HashFactory, prefixLength: int, salt: Bytes)
    requires hashFactory.None? || prefixLength <= 0
    ensures BuildMap(Some(s1), hashFactory, prefixLength, salt) == BuildMap(Some(s2), hashFactory, prefixLength, salt)
    ensures BuildMap(Some(s1), hashFactory, prefixLength, salt)
              == if hashFactory.None? then Err(NilHashFactory) else Err(BadPrefixLength(prefixLength))
    ensures var e := BuildMap(Some(s1), hashFactory, prefixLength, salt).error;
            && (Is(e, ErrNilHashFactory) <==> hashFactory.None?)
            && (Is(e, ErrBadPrefixLength) <==> hashFactory.Some?)
            && !Is(e, ErrTooLargePrefix)
  {
  }

  /** A read error discards the table, whatever the lines already read. */
  lemma {:induction false} ReadErrorDiscardsTable(lines: seq<Bytes>, h: Hasher, prefixLength: int, salt: Bytes)
    requires prefixLength > 0
    ensures BuildMap(Some(Stream(lines, true)), Some(h), prefixLength, salt) == Err(ScannerFailed)
    ensures forall s :: !Is(ScannerFailed, s)
  {
  }

  // ------------------------------------------------------------ empty lines

  /** Dropping the empty lines leaves the last line and the rest of the non-empty ones. */
  lemma {:induction false} NonEmptyLinesSplit(lines: seq<Bytes>)
    requires lines != [] && lines[|lines| - 1] != []
    ensures var ne := NonEmptyLines(lines);
            && ne != []
            && ne[..|ne| - 1] == NonEmptyLines(lines[..|lines| - 1])
            && ne[|ne| - 1] == lines[|lines| - 1]
  {
    var ne := NonEmptyLines(lines);
    assert ne == NonEmptyLines(lines[..|lines| - 1]) + [lines[|lines| - 1]];
  }

  /** The table is that of the non-empty lines alone. */
  lemma {:induction false} EmptyLinesIgnoredByGroup(lines: seq<Bytes>, hashFactory: HashFactory, prefixLength: int, salt: Bytes)
    requires prefixLength > 0
    ensures Group(lines, hashFactory, prefixLength, salt) == Group(NonEmptyLines(lines), hashFactory, prefixLength, salt)
  {
    if lines != [] {
      var init, last := lines[..|lines| - 1], lines[|lines| - 1];
      EmptyLinesIgnoredByGroup(init, hashFactory, prefixLength, salt);
      var t0 := Group(init, hashFactory, prefixLength, salt);
      if last == [] {
        assert NonEmptyLines(lines) == NonEmptyLines(init);
        assert Group(lines, hashFactory, prefixLength, salt) == t0;
      } else {
        NonEmptyLinesSplit(lines);
        var ne := NonEmptyLines(lines);
        assert Group(ne, hashFactory, prefixLength, salt) == AddLine(t0, last, hashFactory, prefixLength, salt);
      }
    }
  }

  /** The first error is that of the non-empty lines alone. */
  lemma {:induction false} EmptyLinesIgnoredByFirstError(lines: seq<Bytes>, hashFactory: HashFactory, prefixLength: int, salt: Bytes)
    requires prefixLength > 0
    ensures FirstError(lines, hashFactory, prefixLength, salt) == FirstError(NonEmptyLines(lines), hashFactory, prefixLength, salt)
  {
    if lines != [] {
      var init, last := lines[..|lines| - 1], lines[|lines| - 1];
      EmptyLinesIgnoredByFirstError(init, hashFactory, prefixLength, salt);
      var e0 := FirstError(init, hashFactory, prefixLength, salt);
      if last == [] {
        assert NonEmptyLines(lines) == NonEmptyLines(init);
        assert FirstError(lines, hashFactory, prefixLength, salt) == e0;
      } else {
        NonEmptyLinesSplit(lines);
        var ne := NonEmptyLines(lines);
        assert FirstError(ne, hashFactory, prefixLength, salt)
            == if e0.Some? then e0 else LineError(last, hashFactory, prefixLength, salt);
      }
    }
  }

  /** A stream and the same stream with its empty lines removed build the same result. */
  lemma {:induction false} BuildMapIgnoresEmptyLines(lines: seq<Bytes>, readFailed: bool, hashFactory: HashFactory, prefixLength: int, salt: Bytes)
    ensures BuildMap(Some(Stream(lines, readFailed)), hashFactory, prefixLength, salt)
         == BuildMap(Some(Stream(NonEmptyLines(lines), readFailed)), hashFactory, prefixLength, salt)
  {
    if prefixLength > 0 {
      EmptyLinesIgnoredByGroup(lines, hashFactory, prefixLength, salt);
      EmptyLinesIgnoredByFirstError(lines, hashFactory, prefixLength, salt);
    }
  }

  lemma {:induction false} NoNonEmptyLines(lines: seq<Bytes>)
    requires forall line :: line in lines ==> line == []
    ensures NonEmptyLines(lines) == []
  {
    if lines != [] {
      var init := lines[..|lines| - 1];
      assert forall line :: line in init ==> line in lines;
      NoNonEmptyLines(init);
      assert lines[|lines| - 1] in lines;
    }
  }

  /** A stream of nothing but empty lines (or none) yields a present, empty table. */
  lemma {:induction false} BlankStreamGivesEmptyTable(lines: seq<Bytes>, h: Hasher, prefixLength: int, salt: Bytes)
    requires prefixLength > 0
    requires forall line :: line in lines ==> line == []
    ensures BuildMap(Some(Stream(lines, false)), Some(h), prefixLength, salt) == Ok(Some(map[]))
  {
    NoNonEmptyLines(lines);
    EmptyLinesIgnoredByGroup(lines, Some(h), prefixLength, salt);
    EmptyLinesIgnoredByFirstError(lines, Some(h), prefixLength, salt);
  }

  // --------------------------------------------------------------- failures

  /**
   * With a present factory, a unit of work fails exactly when a non-empty
   * line's digest is shorter than the prefix, and the error is then the
   * too-large-prefix one.
   */
  lemma {:induction false} FirstErrorIsTooLargePrefix(lines: seq<Bytes>, h: Hasher, prefixLength: int, salt: Bytes)
    requires prefixLength > 0
    ensures (FirstError(lines, Some(h), prefixLength, salt).None?
             <==> forall line :: line in lines && line != [] ==> prefixLength <= |h(salt + line)|)
    ensures (FirstError(lines, Some(h), prefixLength, salt).Some?
             ==> FirstError(lines, Some(h), prefixLength, salt) == Some(TooLargePrefix(prefixLength)))
  {
    if lines != [] {
      var init := lines[..|lines| - 1];
      FirstErrorIsTooLargePrefix(init, h, prefixLength, salt);
      assert forall line :: line in lines <==> line in init || line == lines[|lines| - 1];
    }
  }

  /**
   * A build over a present stream succeeds exactly when the configuration is
   * valid, the stream read without error and every non-empty line's digest
   * is at least as long as the prefix; a success always carries a table.
   */
  lemma {:induction false} BuildMapSucceedsIff(s: Stream, h: Hasher, prefixLength: int, salt: Bytes)
    ensures (BuildMap(Some(s), Some(h), prefixLength, salt).Ok?
             <==> && prefixLength > 0
                  && !s.readFailed
                  && forall line :: line in s.lines && line != [] ==> prefixLength <= |h(salt + line)|)
    ensures BuildMap(Some(s), Some(h), prefixLength, salt).Ok? ==> BuildMap(Some(s), Some(h), prefixLength, salt).value.Some?
  {
    if prefixLength > 0 {
      FirstErrorIsTooLargePrefix(s.lines, h, prefixLength, salt);
    }
  }

  /**
   * One non-empty line whose digest is shorter than the prefix fails the
   * whole build with an error that is both a bad prefix length and a too
   * large prefix, and no table.
   */
  lemma {:induction false} TooShortDigestFailsBuild(lines: seq<Bytes>, h: Hasher, prefixLength: int, salt: Bytes, line: Bytes)
    requires prefixLength > 0
    requires line in lines && line != [] && |h(salt + line)| < prefixLength
    ensures BuildMap(Some(Stream(lines, false)), Some(h), prefixLength, salt) == Err(WaitFailed(TooLargePrefix(prefixLength)))
    ensures Is(WaitFailed(TooLargePrefix(prefixLength)), ErrBadPrefixLength)
    ensures Is(WaitFailed(TooLargePrefix(prefixLength)), ErrTooLargePrefix)
  {
    FirstErrorIsTooLargePrefix(lines, h, prefixLength, salt);
  }

  // ------------------------------------------------------- table structure

  /**
   * Prefix invariant: every value stored under key `k` is the hex of the
   * salted digest of some non-empty line, and `k` is that digest's first
   * `prefixLength` bytes.
   */
  lemma {:induction false} EntriesComeFromLines(lines: seq<Bytes>, h: Hasher, prefixLength: int, salt: Bytes)
    requires prefixLength > 0
    ensures var t := Group(lines, Some(h), prefixLength, salt);
            forall k, v :: k in t && v in t[k] ==> ProducedBy(lines, h, prefixLength, salt, k, v)
  {
    if lines != [] {
      var init, last := lines[..|lines| - 1], lines[|lines| - 1];
      EntriesComeFromLines(init, h, prefixLength, salt);
      var t0 := Group(init, Some(h), prefixLength, salt);
      var t := Group(lines, Some(h), prefixLength, salt);
      GroupLastLine(lines, h, prefixLength, salt);
      forall k, v | k in t && v in t[k]
        ensures ProducedBy(lines, h, prefixLength, salt, k, v)
      {
        if k in t0 && v in t0[k] {
          assert ProducedBy(init, h, prefixLength, salt, k, v);
          var line :| line in init && line != [] && 0 <= prefixLength <= |h(salt + line)|
                      && k == h(salt + line)[..prefixLength] && v == Hex(h(salt + line));
          assert line in lines;
        } else {
          assert last in lines;
        }
      }
    }
  }

  /**
   * Every stored value decodes to a digest whose first `prefixLength` bytes
   * are the key it is stored under.
   */
  lemma {:induction false} ValuesDecodeUnderTheirKey(lines: seq<Bytes>, h: Hasher, prefixLength: int, salt: Bytes)
    requires prefixLength > 0
    ensures var t := Group(lines, Some(h), prefixLength, salt);
            forall k, v :: k in t && v in t[k] ==>
              && Unhex(v).Some?
              && |k| == prefixLength <= |Unhex(v).value|
              && Unhex(v).value[..prefixLength] == k
  {
    EntriesComeFromLines(lines, h, prefixLength, salt);
    var t := Group(lines, Some(h), prefixLength, salt);
    forall k, v | k in t && v in t[k]
      ensures Unhex(v).Some? && |k| == prefixLength <= |Unhex(v).value| && Unhex(v).value[..prefixLength] == k
    {
      assert ProducedBy(lines, h, prefixLength, salt, k, v);
      var line :| line in lines && line != [] && 0 <= prefixLength <= |h(salt + line)|
                  && k == h(salt + line)[..prefixLength] && v == Hex(h(salt + line));
      UnhexHex(h(salt + line));
    }
  }

  /**
   * The key set is exactly the prefixes of the digests of the non-empty
   * lines whose digests are long enough; it does not depend on the order of
   * the lines.
   */
  lemma {:induction false} KeysArePrefixesOfDigests(lines: seq<Bytes>, h: Hasher, prefixLength: int, salt: Bytes)
    requires prefixLength > 0
    ensures Group(lines, Some(h), prefixLength, salt).Keys
         == set line | line in lines && line != [] && prefixLength <= |h(salt + line)| :: h(salt + line)[..prefixLength]
  {
    if lines != [] {
      var init := lines[..|lines| - 1];
      KeysArePrefixesOfDigests(init, h, prefixLength, salt);
      GroupLastLine(lines, h, prefixLength, salt);
      assert forall line :: line in lines <==> line in init || line == lines[|lines| - 1];
    }
  }

  // ---------------------------------------------------- nothing lost or added

  lemma {:induction false} AllValuesRemove(t: Table, k: Bytes)
    requires k in t
    ensures AllValues(t) == multiset(t[k]) + AllValues(t - {k})
    decreases t.Keys
  {
    var j := PickKey(t);
    if j != k {
      AllValuesRemove(t - {j}, k);
      AllValuesRemove(t - {k}, j);
      assert t - {j} - {k} == t - {k} - {j};
    }
  }

  lemma {:induction false} AllValuesInsertPresent(t: Table, k: Bytes, v: string)
    requires k in t
    ensures AllValues(Insert(t, k, v)) == AllValues(t) + multiset{v}
  {
    var t' := Insert(t, k, v);
    assert AllValues(t') == multiset(t[k] + [v]) + AllValues(t - {k}) by {
      AllValuesRemove(t', k);
      assert t' - {k} == t - {k};
    }
    assert multiset(t[k] + [v]) == multiset(t[k]) + multiset{v};
    AllValuesRemove(t, k);
  }

  lemma {:induction false} AllValuesInsertAbsent(t: Table, k: Bytes, v: string)
    requires k !in t
    ensures AllValues(Insert(t, k, v)) == AllValues(t) + multiset{v}
  {
    var t' := Insert(t, k, v);
    AllValuesRemove(t', k);
    assert t' - {k} == t;
  }

  /** Appending one value to a key adds exactly that value to the table's contents. */
  lemma {:induction false} AllValuesInsert(t: Table, k: Bytes, v: string)
    ensures AllValues(Insert(t, k, v)) == AllValues(t) + multiset{v}
  {
    if k in t {
      AllValuesInsertPresent(t, k, v);
    } else {
      AllValuesInsertAbsent(t, k, v);
    }
  }

  /** The table holds exactly the appended values, each as often as it was appended. */
  lemma {:induction false} TableHoldsAppendedValues(lines: seq<Bytes>, h: Hasher, prefixLength: int, salt: Bytes)
    requires prefixLength > 0
    ensures AllValues(Group(lines, Some(h), prefixLength, salt)) == multiset(Appended(lines, h, prefixLength, salt))
  {
    if lines != [] {
      var init, last := lines[..|lines| - 1], lines[|lines| - 1];
      TableHoldsAppendedValues(init, h, prefixLength, salt);
      var t0 := Group(init, Some(h), prefixLength, salt);
      var digest := h(salt + last);
      GroupLastLine(lines, h, prefixLength, salt);
      if last != [] && prefixLength <= |digest| {
        AllValuesInsert(t0, digest[..prefixLength], Hex(digest));
      }
    }
  }

  /**
   * Each key holds exactly the hex digests of the lines whose digests start
   * with it, each as often as such a line occurs; within the key the order is
   * not part of the claim.
   */
  lemma {:induction false} KeyHoldsItsLines(lines: seq<Bytes>, h: Hasher, prefixLength: int, salt: Bytes, key: Bytes)
    requires prefixLength > 0
    ensures multiset(Lookup(Group(lines, Some(h), prefixLength, salt), key))
         == multiset(AppendedUnder(lines, h, prefixLength, salt, key))
  {
    if lines != [] {
      var init, last := lines[..|lines| - 1], lines[|lines| - 1];
      KeyHoldsItsLines(init, h, prefixLength, salt, key);
      var t0 := Group(init, Some(h), prefixLength, salt);
      var digest := h(salt + last);
      GroupLastLine(lines, h, prefixLength, salt);
      if last != [] && prefixLength <= |digest| {
        var t := Insert(t0, digest[..prefixLength], Hex(digest));
        if digest[..prefixLength] == key {
          assert Lookup(t, key) == Lookup(t0, key) + [Hex(digest)];
        } else {
          assert Lookup(t, key) == Lookup(t0, key);
        }
      }
    }
  }

  /**
   * When every digest is long enough, one value is appended per non-empty
   * line, and the hex of a line's digest is appended at least once for every
   * occurrence of that line (more only if another line has the same digest).
   */
  lemma {:induction false} AppendedCountsLines(lines: seq<Bytes>, h: Hasher, prefixLength: int, salt: Bytes)
    requires forall line :: line in lines && line != [] ==> prefixLength <= |h(salt + line)|
    ensures |Appended(lines, h, prefixLength, salt)| == |NonEmptyLines(lines)|
    ensures forall line :: line in lines && line != [] ==>
              multiset(Appended(lines, h, prefixLength, salt))[Hex(h(salt + line))] >= multiset(lines)[line]
  {
    if lines != [] {
      var init, last := lines[..|lines| - 1], lines[|lines| - 1];
      assert lines == init + [last];
      AppendedCountsLines(init, h, prefixLength, salt);
      forall line | line in lines && line != []
        ensures multiset(Appended(lines, h, prefixLength, salt))[Hex(h(salt + line))] >= multiset(lines)[line]
      {
        if line !in init {
          assert multiset(init)[line] == 0;
        }
      }
    }
  }

  /**
   * No entry is lost or duplicated: on success the table holds one value per
   * non-empty line, namely the multiset of appended digests, and every
   * occurrence of a line is represented.
   */
  lemma {:induction false} SuccessKeepsEveryLine(lines: seq<Bytes>, h: Hasher, prefixLength: int, salt: Bytes)
    requires BuildMap(Some(Stream(lines, false)), Some(h), prefixLength, salt).Ok?
    ensures prefixLength > 0
    ensures var t := Group(lines, Some(h), prefixLength, salt);
            && BuildMap(Some(Stream(lines, false)), Some(h), prefixLength, salt) == Ok(Some(t))
            && AllValues(t) == multiset(Appended(lines, h, prefixLength, salt))
            && |AllValues(t)| == |NonEmptyLines(lines)|
            && forall line :: line in lines && line != [] ==> AllValues(t)[Hex(h(salt + line))] >= multiset(lines)[line]
  {
    BuildMapSucceedsIff(Stream(lines, false), h, prefixLength, salt);
    FirstErrorIsTooLargePrefix(lines, h, prefixLength, salt);
    TableHoldsAppendedValues(lines, h, prefixLength, salt);
    AppendedCountsLines(lines, h, prefixLength, salt);
  }

  // ------------------------------------------------------------------ example

  /** The last line appends its digest's hex under its prefix, or changes nothing. */
  lemma {:induction false} GroupLastLine(lines: seq<Bytes>, h: Hasher, prefixLength: int, salt: Bytes)
    requires prefixLength > 0 && lines != []
    ensures var t := Group(lines[..|lines| - 1], Some(h), prefixLength, salt);
            var line := lines[|lines| - 1];
            var digest := h(salt + line);
            Group(lines, Some(h), prefixLength, salt)
              == if line != [] && prefixLength <= |digest| then Insert(t, digest[..prefixLength], Hex(digest)) else t
  {
  }

  /** One more line appends its digest's hex under its prefix, or changes nothing. */
  lemma {:induction false} GroupAppendLine(lines: seq<Bytes>, line: Bytes, h: Hasher, prefixLength: int, salt: Bytes)
    requires prefixLength > 0
    ensures var t := Group(lines, Some(h), prefixLength, salt);
            var digest := h(salt + line);
            Group(lines + [line], Some(h), prefixLength, salt)
              == if line != [] && prefixLength <= |digest| then Insert(t, digest[..prefixLength], Hex(digest)) else t
  {
    assert (lines + [line])[..|lines|] == lines;
  }

  /** The table of the example's lines "a", "", "b", "a", built line by line. */
  lemma {:induction false} ExampleTableWithBlank(h: Hasher, la: Bytes, lb: Bytes, salt: Bytes)
    requires la != [] && lb != []
    requires 2 <= |h(salt + la)| && 2 <= |h(salt + lb)|
    ensures var a, b := h(salt + la), h(salt + lb);
            Group([la, [], lb, la], Some(h), 2, salt)
              == Insert(Insert(Insert(map[], a[..2], Hex(a)), b[..2], Hex(b)), a[..2], Hex(a))
  {
    assert [] + [la] == [la] && [la] + [[]] == [la, []];
    assert [la, []] + [lb] == [la, [], lb] && [la, [], lb] + [la] == [la, [], lb, la];
    GroupAppendLine([], la, h, 2, salt);
    GroupAppendLine([la], [], h, 2, salt);
    GroupAppendLine([la, []], lb, h, 2, salt);
    GroupAppendLine([la, [], lb], la, h, 2, salt);
  }

  /** The table of the example's lines without the blank one, built line by line. */
  lemma {:induction false} ExampleTableWithoutBlank(h: Hasher, la: Bytes, lb: Bytes, salt: Bytes)
    requires la != [] && lb != []
    requires 2 <= |h(salt + la)| && 2 <= |h(salt + lb)|
    ensures var a, b := h(salt + la), h(salt + lb);
            Group([la, lb, la], Some(h), 2, salt)
              == Insert(Insert(Insert(map[], a[..2], Hex(a)), b[..2], Hex(b)), a[..2], Hex(a))
  {
    assert [] + [la] == [la] && [la] + [lb] == [la, lb] && [la, lb] + [la] == [la, lb, la];
    GroupAppendLine([], la, h, 2, salt);
    GroupAppendLine([la], lb, h, 2, salt);
    GroupAppendLine([la, lb], la, h, 2, salt);
  }

  /** No line of the example fails. */
  lemma {:induction false} ExampleNoErrors(h: Hasher, la: Bytes, lb: Bytes, salt: Bytes)
    requires 2 <= |h(salt + la)| && 2 <= |h(salt + lb)|
    ensures FirstError([la, [], lb, la], Some(h), 2, salt) == None
    ensures FirstError([la, lb, la], Some(h), 2, salt) == None
  {
    assert forall line :: line in [la, [], lb, la] ==> line == la || line == [] || line == lb;
    FirstErrorIsTooLargePrefix([la, [], lb, la], h, 2, salt);
    FirstErrorIsTooLargePrefix([la, lb, la], h, 2, salt);
  }

  /** The example's outcome, with and without the blank line: the same present table. */
  lemma {:induction false} ExampleOutcome(h: Hasher, la: Bytes, lb: Bytes, salt: Bytes)
    requires la != [] && lb != []
    requires 2 <= |h(salt + la)| && 2 <= |h(salt + lb)|
    ensures var a, b := h(salt + la), h(salt + lb);
            var t := Insert(Insert(Insert(map[], a[..2], Hex(a)), b[..2], Hex(b)), a[..2], Hex(a));
            && BuildMap(Some(Stream([la, [], lb, la], false)), Some(h), 2, salt) == Ok(Some(t))
            && BuildMap(Some(Stream([la, lb, la], false)), Some(h), 2, salt) == Ok(Some(t))
  {
    ExampleTableWithBlank(h, la, lb, salt);
    ExampleTableWithoutBlank(h, la, lb, salt);
    ExampleNoErrors(h, la, lb, salt);
  }

  /** The example's table: two keys, and the digest of a twice under its prefix unless b has the same digest. */
  lemma {:induction false} ExampleLookup(a: Bytes, b: Bytes)
    requires 2 <= |a| && 2 <= |b|
    ensures var t := Insert(Insert(Insert(map[], a[..2], Hex(a)), b[..2], Hex(b)), a[..2], Hex(a));
            && t.Keys == {a[..2], b[..2]}
            && multiset(Lookup(t, a[..2]))[Hex(a)] == 2 + (if b == a then 1 else 0)
  {
    var a2, b2, ha, hb := a[..2], b[..2], Hex(a), Hex(b);
    var t1 := Insert(map[], a2, ha);
    var t3 := Insert(t1, b2, hb);
    var t := Insert(t3, a2, ha);
    assert Lookup(t1, a2) == [ha];
    assert t.Keys == {a2, b2};
    var vs := Lookup(t3, a2);
    assert Lookup(t, a2) == vs + [ha];
    if b == a {
      assert vs == [ha, ha];
      assert multiset(vs + [ha])[ha] == 3;
    } else {
      assert hb != ha by {
        HexInjective(a, b);
      }
      assert multiset(vs)[ha] == 1 by {
        if b2 == a2 {
          assert vs == [ha, hb];
        } else {
          assert vs == [ha];
        }
      }
      assert multiset(vs + [ha]) == multiset(vs) + multiset{ha};
    }
  }

  /**
   * The stream "a", "", "b", "a" (for any two non-empty lines a and b, such
   * as "a" and "b" with salt "s") and a two-byte prefix, for any hash whose
   * digests have at least two bytes: the keys are the prefixes of the two
   * digests, the digest of a is stored twice under its prefix (three times
   * only if b has the very same digest), and the blank line adds nothing.
   */
  lemma {:induction false} ExampleDuplicateAndBlankLines(h: Hasher, la: Bytes, lb: Bytes, salt: Bytes)
    requires la != [] && lb != []
    requires 2 <= |h(salt + la)| && 2 <= |h(salt + lb)|
    ensures var r := BuildMap(Some(Stream([la, [], lb, la], false)), Some(h), 2, salt);
            && r.Ok? && r.value.Some?
            && r == BuildMap(Some(Stream([la, lb, la], false)), Some(h), 2, salt)
            && r.value.value.Keys == {h(salt + la)[..2], h(salt + lb)[..2]}
            && multiset(Lookup(r.value.value, h(salt + la)[..2]))[Hex(h(salt + la))]
               == 2 + (if h(salt + lb) == h(salt + la) then 1 else 0)
  {
    ExampleOutcome(h, la, lb, salt);
    ExampleLookup(h(salt + la), h(salt + lb));
  }
}
