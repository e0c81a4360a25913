/**
 * The patch catalog (the `urls` table) and the query that the lookup route
 * runs against it on a cache miss (src/app.js:42-43).
 */
module Catalog {
  import opened Wrappers
  import opened Versions

  /**
   * One published build, as the publish route inserts it (src/app.js:69-71).
   * `os` is kept as the string the publisher sent: the source does not check it.
   */
  datatype PatchRecord = PatchRecord(url: string, os: string, major: nat, minor: nat,
                                     patch: nat, hash: string, date: int)

  /** One element of a lookup answer: `{name, md5, url}`. */
  datatype PatchEntry = PatchEntry(name: string, md5: string, url: string)

  function RecordTuple(r: PatchRecord): (t: VersionTuple) {
    (r.major, r.minor, r.patch)
  }

  /** The `WHERE` clause of src/app.js:42, with the version test done on numbers. */
  predicate IsNewer(r: PatchRecord, key: Version) {
    r.os == Token(key.os) && Less(Tuple(key), RecordTuple(r))
  }

  /** The projection of src/app.js:42: the printed version, the hash as `md5`, and the url. */
  function Entry(r: PatchRecord): (e: PatchEntry) {
    PatchEntry(Name(RecordTuple(r)), r.hash, r.url)
  }

  /** Non-decreasing by version number. */
  predicate Ascending(rs: seq<PatchRecord>) {
    forall i, j :: 0 <= i < j < |rs| ==> !Less(RecordTuple(rs[j]), RecordTuple(rs[i]))
  }

  /** The records of `catalog` newer than `key` on its platform, in catalog order. */
  function Newer(catalog: seq<PatchRecord>, key: Version): (rs: seq<PatchRecord>)
    ensures forall r :: multiset(rs)[r] == if IsNewer(r, key) then multiset(catalog)[r] else 0
  {
    if catalog == [] then []
    else
      var last := catalog[|catalog| - 1];
      assert catalog == catalog[..|catalog| - 1] + [last];
      Newer(catalog[..|catalog| - 1], key) + if IsNewer(last, key) then [last] else []
  }

  /** Places `r` in an ascending sequence, in front of the first record not older than it. */
  function Insert(r: PatchRecord, rs: seq<PatchRecord>): (out: seq<PatchRecord>)
    requires Ascending(rs)
    ensures Ascending(out)
    ensures multiset(out) == multiset(rs) + multiset{r}
  {
    if rs == [] || !Less(RecordTuple(rs[0]), RecordTuple(r)) then [r] + rs
    else
      var tail := Insert(r, rs[1..]);
      assert rs == [rs[0]] + rs[1..];
      assert forall k :: 0 <= k < |tail| ==> !Less(RecordTuple(tail[k]), RecordTuple(rs[0])) by {
        forall k | 0 <= k < |tail|
          ensures !Less(RecordTuple(tail[k]), RecordTuple(rs[0]))
        {
          assert tail[k] in multiset(tail);
          assert tail[k] == r || tail[k] in rs[1..];
        }
      }
      [rs[0]] + tail
  }

  /** `ORDER BY` on the version number. */
  function SortByVersion(rs: seq<PatchRecord>): (out: seq<PatchRecord>)
    ensures Ascending(out)
    ensures multiset(out) == multiset(rs)
  {
    if rs == [] then []
    else
      assert rs == [rs[0]] + rs[1..];
      Insert(rs[0], SortByVersion(rs[1..]))
  }

  /**
   * The records a client at `key` still needs: exactly the catalog's records
   * for the same platform with a greater version number, each as often as the
   * catalog holds it, in ascending version order.
   */
  function SelectNewer(catalog: seq<PatchRecord>, key: Version): (rs: seq<PatchRecord>)
    ensures Ascending(rs)
    ensures forall r :: multiset(rs)[r] == if IsNewer(r, key) then multiset(catalog)[r] else 0
  {
    SortByVersion(Newer(catalog, key))
  }

  /** The answer to a lookup by `key` computed from the catalog (src/app.js:42-43). */
  function QueryNewer(catalog: seq<PatchRecord>, key: Version): (es: seq<PatchEntry>)
  {
    var rs := SelectNewer(catalog, key);
    seq(|rs|, i requires 0 <= i < |rs| => Entry(rs[i]))
  }

  function ListedTuple(e: PatchEntry): (t: VersionTuple)
  {
    match ParseNumbers(e.name)
    case Some(t) => t
    case None => (0, 0, 0)
  }

  /** A lookup answer has one entry per newer record of the platform. */
  lemma QueryNewerLength(catalog: seq<PatchRecord>, key: Version)
    ensures |QueryNewer(catalog, key)| == |Newer(catalog, key)|
  {
    assert |multiset(SelectNewer(catalog, key))| == |multiset(Newer(catalog, key))|;
  }

  /** Every entry of a lookup answer comes from a newer record of the platform in the catalog. */
  lemma QueryNewerListsOnlyNewer(catalog: seq<PatchRecord>, key: Version, i: nat)
    requires i < |QueryNewer(catalog, key)|
    ensures var r := SelectNewer(catalog, key)[i];
      r in catalog && IsNewer(r, key) && QueryNewer(catalog, key)[i] == Entry(r)
  {
    var rs := SelectNewer(catalog, key);
    assert rs[i] in multiset(rs);
    assert multiset(rs)[rs[i]] > 0;
    assert rs[i] in multiset(catalog);
  }

  /** Every newer record of the platform in the catalog is listed in a lookup answer. */
  lemma QueryNewerListsAllNewer(catalog: seq<PatchRecord>, key: Version, r: PatchRecord)
    requires r in catalog && IsNewer(r, key)
    ensures Entry(r) in QueryNewer(catalog, key)
  {
    var rs := SelectNewer(catalog, key);
    assert r in multiset(catalog);
    assert multiset(rs)[r] > 0;
    assert r in rs;
    var i :| 0 <= i < |rs| && rs[i] == r;
    assert QueryNewer(catalog, key)[i] == Entry(r);
  }

  /** A lookup answer lists exactly the entries of the catalog's newer records of the platform. */
  lemma QueryNewerMembers(catalog: seq<PatchRecord>, key: Version, e: PatchEntry)
    ensures e in QueryNewer(catalog, key) <==>
            exists r :: r in catalog && IsNewer(r, key) && e == Entry(r)
  {
    var es := QueryNewer(catalog, key);
    if e in es {
      var i :| 0 <= i < |es| && es[i] == e;
      QueryNewerListsOnlyNewer(catalog, key, i);
    }
    if exists r :: r in catalog && IsNewer(r, key) && e == Entry(r) {
      var r :| r in catalog && IsNewer(r, key) && e == Entry(r);
      QueryNewerListsAllNewer(catalog, key, r);
    }
  }

  /** The names of a lookup answer spell versions in ascending order. */
  lemma QueryNewerSorted(catalog: seq<PatchRecord>, key: Version)
    ensures var es := QueryNewer(catalog, key);
      && (forall i :: 0 <= i < |es| ==> ParseNumbers(es[i].name).Some?)
      && (forall i, j :: 0 <= i < j < |es| ==> !Less(ListedTuple(es[j]), ListedTuple(es[i])))
  {
    var rs := SelectNewer(catalog, key);
    var es := QueryNewer(catalog, key);
    forall i | 0 <= i < |es|
      ensures ParseNumbers(es[i].name) == Some(RecordTuple(rs[i]))
    {
      NameRoundTrip(RecordTuple(rs[i]));
    }
  }

  /** Records are listed in version order: an older record never follows a newer one. */
  lemma ListedInVersionOrder(catalog: seq<PatchRecord>, key: Version, i: nat, j: nat)
    requires i < |SelectNewer(catalog, key)| && j < |SelectNewer(catalog, key)|
    requires Less(RecordTuple(SelectNewer(catalog, key)[i]), RecordTuple(SelectNewer(catalog, key)[j]))
    ensures i < j
  {
  }

  /** Publishing a record newer than `key` on its platform adds it to the answer for `key`. */
  lemma QueryAfterAppendNewer(catalog: seq<PatchRecord>, r: PatchRecord, key: Version)
    requires IsNewer(r, key)
    ensures Entry(r) in QueryNewer(catalog + [r], key)
    ensures |QueryNewer(catalog + [r], key)| == |QueryNewer(catalog, key)| + 1
  {
    var c := catalog + [r];
    assert c[..|c| - 1] == catalog;
    assert Newer(c, key) == Newer(catalog, key) + [r];
    QueryNewerLength(c, key);
    QueryNewerLength(catalog, key);
    assert r in c;
    QueryNewerMembers(c, key, Entry(r));
  }

  /** Publishing any other record leaves the answer for `key` as it was. */
  lemma QueryAfterAppendOther(catalog: seq<PatchRecord>, r: PatchRecord, key: Version)
    requires !IsNewer(r, key)
    ensures QueryNewer(catalog + [r], key) == QueryNewer(catalog, key)
  {
    var c := catalog + [r];
    assert c[..|c| - 1] == catalog;
    assert Newer(c, key) == Newer(catalog, key) + [];
    assert Newer(catalog, key) + [] == Newer(catalog, key);
  }

  // ---------------------------------------------------------------------------
  // Numeric order against the text order of src/app.js:42

  /**
   * The query of src/app.js:42 as written compares and sorts the printed
   * names `major || '.' || minor || '.' || patch` as text. Text order here is
   * SQLite's default collation on ASCII: character by character, and a proper
   * prefix first.
   */
  predicate TextLess(a: string, b: string) {
    if |a| == 0 then |b| > 0
    else if |b| == 0 then false
    else if a[0] != b[0] then a[0] < b[0]
    else TextLess(a[1..], b[1..])
  }

  predicate IsNewerAsWritten(r: PatchRecord, key: Version) {
    r.os == Token(key.os) && TextLess(Name(Tuple(key)), Name(RecordTuple(r)))
  }

  function NewerAsWritten(catalog: seq<PatchRecord>, key: Version): (rs: seq<PatchRecord>) {
    if catalog == [] then []
    else
      var last := catalog[|catalog| - 1];
      NewerAsWritten(catalog[..|catalog| - 1], key) + if IsNewerAsWritten(last, key) then [last] else []
  }

  function InsertByName(r: PatchRecord, rs: seq<PatchRecord>): (sorted: seq<PatchRecord>) {
    if rs == [] || !TextLess(Name(RecordTuple(rs[0])), Name(RecordTuple(r))) then [r] + rs
    else [rs[0]] + InsertByName(r, rs[1..])
  }

  function SortByName(rs: seq<PatchRecord>): (sorted: seq<PatchRecord>) {
    if rs == [] then [] else InsertByName(rs[0], SortByName(rs[1..]))
  }

  /** The lookup answer of src/app.js:42-43 as the source computes it. */
  function QueryAsWritten(catalog: seq<PatchRecord>, key: Version): (es: seq<PatchEntry>) {
    var rs := SortByName(NewerAsWritten(catalog, key));
    seq(|rs|, i requires 0 <= i < |rs| => Entry(rs[i]))
  }

  /** A catalog of one record answers with that record exactly when it is newer than the key. */
  lemma QueryOfOne(r: PatchRecord, key: Version)
    ensures QueryNewer([r], key) == if IsNewer(r, key) then [Entry(r)] else []
  {
    assert [r][..0] == [];
    assert [r][1..] == [];
  }

  /** The names under which versions 1.9.0 and 1.10.0 are listed. */
  lemma NamesOfNineAndTen()
    ensures Name((1, 9, 0)) == "1.9.0" && Name((1, 10, 0)) == "1.10.0"
  {
    assert Decimal(10) == "10" && Decimal(9) == "9" && Decimal(1) == "1" && Decimal(0) == "0";
  }

  /**
   * A client at 1.9.0 is not offered 1.10.0 by the text comparison, although
   * 1.10.0 is the greater version.
   */
  lemma TextOrderSkipsMinorTen()
    ensures var r := PatchRecord("u", "LINUX", 1, 10, 0, "h", 0);
      var key := Version(Linux, 1, 9, 0);
      && QueryAsWritten([r], key) == []
      && QueryNewer([r], key) == [PatchEntry("1.10.0", "h", "u")]
  {
    var r := PatchRecord("u", "LINUX", 1, 10, 0, "h", 0);
    var key := Version(Linux, 1, 9, 0);
    NamesOfNineAndTen();
    assert Name(Tuple(key)) == "1.9.0";
    assert TextLess("1.10.0", "1.9.0") by {
      assert "1.10.0"[1..] == ".10.0" && "1.9.0"[1..] == ".9.0";
      assert ".10.0"[1..] == "10.0" && ".9.0"[1..] == "9.0";
    }
    assert !TextLess("1.9.0", "1.10.0") by {
      assert "1.10.0"[1..] == ".10.0" && "1.9.0"[1..] == ".9.0";
      assert ".10.0"[1..] == "10.0" && ".9.0"[1..] == "9.0";
    }
    assert [r][..0] == [];
    assert NewerAsWritten([r], key) == [];
    assert Newer([r], key) == [r];
    assert SelectNewer([r], key) == [r];
  }

  lemma NewerOfTwo(a: PatchRecord, b: PatchRecord, key: Version)
    requires IsNewer(a, key) && IsNewer(b, key)
    ensures Newer([a, b], key) == [a, b]
  {
    assert [a, b][..1] == [a] && [a][..0] == [];
  }

  lemma SortTwo(a: PatchRecord, b: PatchRecord)
    requires Less(RecordTuple(b), RecordTuple(a))
    ensures SortByVersion([a, b]) == [b, a]
  {
    assert [a, b][1..] == [b] && [b][1..] == [];
    assert SortByVersion([b]) == [b];
  }

  lemma SortTwoInOrder(a: PatchRecord, b: PatchRecord)
    requires Less(RecordTuple(a), RecordTuple(b))
    ensures SortByVersion([a, b]) == [a, b]
  {
    assert [a, b][1..] == [b] && [b][1..] == [];
    assert SortByVersion([b]) == [b];
  }

  /** Two newer records are listed older first, whichever the catalog holds first. */
  lemma SelectTwo(older: PatchRecord, newer: PatchRecord, key: Version)
    requires IsNewer(older, key) && IsNewer(newer, key)
    requires Less(RecordTuple(older), RecordTuple(newer))
    ensures SelectNewer([newer, older], key) == [older, newer]
    ensures SelectNewer([older, newer], key) == [older, newer]
  {
    NewerOfTwo(newer, older, key);
    SortTwo(newer, older);
    NewerOfTwo(older, newer, key);
    SortTwoInOrder(older, newer);
  }

  /**
   * Numeric order lists 1.9.0 before 1.10.0, as text order would not, whichever
   * of the two a two-record catalog holds first.
   */
  lemma NumericOrderListsNineBeforeTen(r9: PatchRecord, r10: PatchRecord, key: Version)
    requires RecordTuple(r9) == (1, 9, 0) && RecordTuple(r10) == (1, 10, 0)
    requires r9.os == r10.os == Token(key.os) && Less(Tuple(key), (1, 9, 0))
    ensures SelectNewer([r10, r9], key) == [r9, r10]
    ensures SelectNewer([r9, r10], key) == [r9, r10]
  {
    assert IsNewer(r9, key);
    LessTransitive(Tuple(key), (1, 9, 0), (1, 10, 0));
    assert IsNewer(r10, key);
    SelectTwo(r9, r10, key);
  }
}
