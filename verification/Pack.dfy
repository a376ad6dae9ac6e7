/**
 The pack index of ds4_pack.c: rows with unique names, and their reconciliation with the tensors of
 a source file.
 */
module Pack {
  import opened KvPlan

  datatype Entry = Entry(semanticId: string, sourceName: string, dtype: string, shape: string, owningGpu: int,
                         sourceOffset: u64, byteLength: u64, shardOffset: u64)

  datatype Source = Source(name: string, dtype: string, shape: string, offset: u64, length: u64)

  datatype Status = Ok | MissingPackRow | BadOwningGpu | OffsetOutOfRange | DtypeMismatch | ShapeMismatch
                  | OffsetMismatch | ByteLengthMismatch

  datatype RowError = NoError | BadGpu | ZeroLength | OffsetOverflow | DuplicateId | DuplicateName

  datatype Summary = Summary(sources: nat, rows: nat, ok: nat, failed: nat, extra: nat)

  /** row_status for a row that exists. */
  function RowStatus(e: Entry, s: Source, fileSize: u64, gpus: int): Status {
    if gpus > 0 && (e.owningGpu < 0 || e.owningGpu >= gpus) then BadOwningGpu
    else if e.sourceOffset > fileSize || e.byteLength > fileSize - e.sourceOffset then OffsetOutOfRange
    else if e.dtype != s.dtype then DtypeMismatch
    else if e.shape != s.shape then ShapeMismatch
    else if e.sourceOffset != s.offset then OffsetMismatch
    else if e.byteLength != s.length then ByteLengthMismatch
    else Ok
  }

  /** A row agrees with its source tensor and lies in the source file, on a GPU that exists; otherwise
      the status names the first of these that fails. */
  lemma RowStatusOk(e: Entry, s: Source, fileSize: u64, gpus: int)
    ensures RowStatus(e, s, fileSize, gpus) == Ok <==>
              && (gpus > 0 ==> 0 <= e.owningGpu < gpus)
              && e.sourceOffset + e.byteLength <= fileSize
              && e.dtype == s.dtype && e.shape == s.shape && e.sourceOffset == s.offset && e.byteLength == s.length
    ensures var status := RowStatus(e, s, fileSize, gpus);
            var found := (gpus > 0 ==> 0 <= e.owningGpu < gpus) && e.sourceOffset + e.byteLength <= fileSize;
            && (status == BadOwningGpu <==> gpus > 0 && !(0 <= e.owningGpu < gpus))
            && (status == OffsetOutOfRange ==> e.sourceOffset + e.byteLength > fileSize)
            && (status == DtypeMismatch <==> found && e.dtype != s.dtype)
            && (status == ShapeMismatch <==> found && e.dtype == s.dtype && e.shape != s.shape)
            && (status == OffsetMismatch <==>
                found && e.dtype == s.dtype && e.shape == s.shape && e.sourceOffset != s.offset)
            && status != MissingPackRow
  {
  }

  // ------------------------------------------------------------------ the index

  ghost predicate UniqueRows(rows: seq<Entry>) {
    && (forall i, j | 0 <= i < j < |rows| :: rows[i].sourceName != rows[j].sourceName)
    && (forall i, j | 0 <= i < j < |rows| :: rows[i].semanticId != rows[j].semanticId)
  }

  ghost predicate RowOk(e: Entry) {
    e.owningGpu >= 0 && e.byteLength > 0 && e.sourceOffset + e.byteLength <= MAX && e.shardOffset + e.byteLength <= MAX
  }

  class PackIndex {
    var entries: seq<Entry>

    ghost predicate Valid()
      reads this
    {
      UniqueRows(entries) && forall i | 0 <= i < |entries| :: RowOk(entries[i])
    }

    constructor ()
      ensures Valid() && entries == []
    {
      entries := [];
    }

    /** pack_find_semantic. */
    method FindSemantic(id: string) returns (idx: int)
      ensures -1 <= idx < |entries|
      ensures idx >= 0 ==> entries[idx].semanticId == id
      ensures idx < 0 ==> forall i | 0 <= i < |entries| :: entries[i].semanticId != id
    {
      for i := 0 to |entries|
        invariant forall k | 0 <= k < i :: entries[k].semanticId != id
      {
        if entries[i].semanticId == id { return i; }
      }
      return -1;
    }

    /** pack_find_source_name. */
    method FindSourceName(name: string) returns (idx: int)
      ensures -1 <= idx < |entries|
      ensures idx >= 0 ==> entries[idx].sourceName == name
      ensures idx < 0 ==> forall i | 0 <= i < |entries| :: entries[i].sourceName != name
    {
      for i := 0 to |entries|
        invariant forall k | 0 <= k < i :: entries[k].sourceName != name
      {
        if entries[i].sourceName == name { return i; }
      }
      return -1;
    }

    /** The checks of parse_pack_row on a row whose fields have been read, and its appending. */
    method AddRow(e: Entry) returns (r: RowError)
      requires Valid()
      modifies this
      ensures Valid()
      ensures r == NoError <==> RowOk(e) && UniqueRows(old(entries) + [e])
      ensures r == BadGpu <==> e.owningGpu < 0
      ensures r == ZeroLength <==> e.owningGpu >= 0 && e.byteLength == 0
      ensures r == OffsetOverflow <==>
                && e.owningGpu >= 0 && e.byteLength > 0
                && (e.sourceOffset + e.byteLength > 0xFFFF_FFFF_FFFF_FFFF || e.shardOffset + e.byteLength > 0xFFFF_FFFF_FFFF_FFFF)
      ensures r == DuplicateId <==> RowOk(e) && exists i | 0 <= i < |old(entries)| :: old(entries)[i].semanticId == e.semanticId
      ensures r == DuplicateName ==> exists i | 0 <= i < |old(entries)| :: old(entries)[i].sourceName == e.sourceName
      ensures entries == if r == NoError then old(entries) + [e] else old(entries)
    {
      if e.owningGpu < 0 { return BadGpu; }
      if e.byteLength == 0 { return ZeroLength; }
      if e.sourceOffset > MAX - e.byteLength || e.shardOffset > MAX - e.byteLength { return OffsetOverflow; }
      var sem := FindSemantic(e.semanticId);
      if sem >= 0 {
        NotUnique(entries, e, sem);
        return DuplicateId;
      }
      var src := FindSourceName(e.sourceName);
      if src >= 0 {
        NotUnique(entries, e, src);
        return DuplicateName;
      }
      entries := entries + [e];
      return NoError;
    }
  }

  lemma NotUnique(rows: seq<Entry>, e: Entry, i: nat)
    requires i < |rows| && (rows[i].semanticId == e.semanticId || rows[i].sourceName == e.sourceName)
    ensures !UniqueRows(rows + [e])
  {
    var r := rows + [e];
    assert r[i] == rows[i] && r[|rows|] == e;
  }

  // ------------------------------------------------------------------ what reconciliation is about

  /** `pairing[i]` is the row of source tensor `i`: the two have the same name and agree, and every row
      belongs to exactly one tensor. */
  ghost predicate Pairing(rows: seq<Entry>, sources: seq<Source>, fileSize: u64, gpus: int, pairing: seq<nat>) {
    && |pairing| == |sources|
    && (forall i | 0 <= i < |sources| ::
          && pairing[i] < |rows| && rows[pairing[i]].sourceName == sources[i].name
          && RowStatus(rows[pairing[i]], sources[i], fileSize, gpus) == Ok)
    && (forall i, j | 0 <= i < j < |sources| :: pairing[i] != pairing[j])
    && (forall k | 0 <= k < |rows| :: k in pairing)
  }

  function RowOf(rows: seq<Entry>, name: string): int {
    if rows == [] then -1
    else if rows[|rows| - 1].sourceName == name then |rows| - 1
    else RowOf(rows[..|rows| - 1], name)
  }

  /** The status of source tensor `s`. */
  function StatusOf(rows: seq<Entry>, s: Source, fileSize: u64, gpus: int): Status {
    var k := RowOf(rows, s.name);
    if 0 <= k < |rows| then RowStatus(rows[k], s, fileSize, gpus) else MissingPackRow
  }

  lemma {:induction false} RowOfIs(rows: seq<Entry>, name: string, k: int)
    requires UniqueRows(rows) && -1 <= k < |rows|
    requires if k >= 0 then rows[k].sourceName == name else forall i | 0 <= i < |rows| :: rows[i].sourceName != name
    ensures RowOf(rows, name) == k
  {
    if rows != [] && k < |rows| - 1 {
      RowOfIs(rows[..|rows| - 1], name, k);
    }
  }

  function OkCount(rows: seq<Entry>, sources: seq<Source>, fileSize: u64, gpus: int): nat {
    if sources == [] then 0
    else
      var n := |sources| - 1;
      OkCount(rows, sources[..n], fileSize, gpus) + if StatusOf(rows, sources[n], fileSize, gpus) == Ok then 1 else 0
  }

  lemma {:induction false} OkCountAll(rows: seq<Entry>, sources: seq<Source>, fileSize: u64, gpus: int)
    ensures OkCount(rows, sources, fileSize, gpus) <= |sources|
    ensures OkCount(rows, sources, fileSize, gpus) == |sources|
       <==> forall i | 0 <= i < |sources| :: StatusOf(rows, sources[i], fileSize, gpus) == Ok
  {
    if sources != [] {
      var n := |sources| - 1;
      OkCountAll(rows, sources[..n], fileSize, gpus);
      assert forall i | 0 <= i < n :: sources[..n][i] == sources[i];
    }
  }

  /** The count is the number of tensors whose row agrees with them. */
  lemma {:induction false} OkCountIs(rows: seq<Entry>, sources: seq<Source>, fileSize: u64, gpus: int)
    ensures OkCount(rows, sources, fileSize, gpus)
         == |set i | 0 <= i < |sources| && StatusOf(rows, sources[i], fileSize, gpus) == Ok|
  {
    var all := set i | 0 <= i < |sources| && StatusOf(rows, sources[i], fileSize, gpus) == Ok;
    if sources == [] {
      assert all == {};
    } else {
      var n := |sources| - 1;
      OkCountIs(rows, sources[..n], fileSize, gpus);
      var some := set i | 0 <= i < |sources[..n]| && StatusOf(rows, sources[..n][i], fileSize, gpus) == Ok;
      assert all == if StatusOf(rows, sources[n], fileSize, gpus) == Ok then some + {n} else some;
    }
  }

  // ------------------------------------------------------------------ counting

  function Elements(s: seq<nat>): set<nat> {
    set x | x in s
  }

  lemma {:induction false} ElementsBound(s: seq<nat>)
    ensures |Elements(s)| <= |s|
    ensures (forall i, j | 0 <= i < j < |s| :: s[i] != s[j]) ==> |Elements(s)| == |s|
  {
    if s == [] {
      assert Elements(s) == {};
    } else {
      var n := |s| - 1;
      ElementsBound(s[..n]);
      assert s == s[..n] + [s[n]];
      assert Elements(s) == Elements(s[..n]) + {s[n]};
      if forall i, j | 0 <= i < j < |s| :: s[i] != s[j] {
        assert s[n] !in s[..n];
        assert forall i, j | 0 <= i < j < n :: s[..n][i] != s[..n][j];
      }
    }
  }

  function Below(n: nat): set<nat> {
    if n == 0 then {} else Below(n - 1) + {n - 1}
  }

  lemma {:induction false} BelowSize(n: nat)
    ensures |Below(n)| == n && forall x: nat :: x in Below(n) <==> x < n
  {
    if n > 0 {
      BelowSize(n - 1);
    }
  }

  /** A sequence over `0..n` that reaches every number is a bijection exactly when it has length `n`. */
  lemma CoverCount(s: seq<nat>, n: nat)
    requires (forall k | 0 <= k < n :: k in s) && (forall i | 0 <= i < |s| :: s[i] < n)
    ensures |s| == n <==> forall i, j | 0 <= i < j < |s| :: s[i] != s[j]
  {
    BelowSize(n);
    ElementsBound(s);
    assert Elements(s) == Below(n);
    if exists i, j :: 0 <= i < j < |s| && s[i] == s[j] {
      var i, j :| 0 <= i < j < |s| && s[i] == s[j];
      var t := s[..j] + s[j + 1..];
      ElementsBound(t);
      forall x | x in s ensures x in t {
        var k :| 0 <= k < |s| && s[k] == x;
        var k2 := if k == j then i else k;
        assert t[if k2 < j then k2 else k2 - 1] == x;
      }
      assert Elements(s) <= Elements(t);
      SubsetSize(Elements(s), Elements(t));
    }
  }

  lemma {:induction false} SubsetSize(a: set<nat>, b: set<nat>)
    requires a <= b
    ensures |a| <= |b|
  {
    assert b == a + (b - a);
  }

  // ------------------------------------------------------------------ reconciliation

  /** The row of every source tensor, where there is one. */
  function Rows(rows: seq<Entry>, sources: seq<Source>): seq<int> {
    seq(|sources|, i requires 0 <= i < |sources| => RowOf(rows, sources[i].name))
  }

  ghost predicate Accepted(rows: seq<Entry>, sources: seq<Source>, fileSize: u64, gpus: int) {
    && |sources| == |rows|
    && (forall i | 0 <= i < |sources| :: StatusOf(rows, sources[i], fileSize, gpus) == Ok)
    && (forall k | 0 <= k < |rows| :: k in Rows(rows, sources))
  }

  lemma {:induction false} RowOfFound(rows: seq<Entry>, name: string)
    ensures -1 <= RowOf(rows, name) < |rows|
    ensures RowOf(rows, name) >= 0 ==> rows[RowOf(rows, name)].sourceName == name
    ensures RowOf(rows, name) < 0 ==> forall i | 0 <= i < |rows| :: rows[i].sourceName != name
  {
    if rows != [] {
      RowOfFound(rows[..|rows| - 1], name);
    }
  }

  /** What the counts decide is whether there is a one-to-one correspondence by name. That the source
      names are distinct need not be checked: it follows by counting. */
  lemma AcceptedIsPairing(rows: seq<Entry>, sources: seq<Source>, fileSize: u64, gpus: int)
    requires UniqueRows(rows)
    ensures Accepted(rows, sources, fileSize, gpus) <==> exists p: seq<nat> :: Pairing(rows, sources, fileSize, gpus, p)
    ensures Accepted(rows, sources, fileSize, gpus) ==> forall i, j | 0 <= i < j < |sources| :: sources[i].name != sources[j].name
  {
    if Accepted(rows, sources, fileSize, gpus) {
      AcceptedPairs(rows, sources, fileSize, gpus);
    }
    if exists p: seq<nat> :: Pairing(rows, sources, fileSize, gpus, p) {
      var p: seq<nat> :| Pairing(rows, sources, fileSize, gpus, p);
      PairsAccepted(rows, sources, fileSize, gpus, p);
    }
  }

  lemma AcceptedPairs(rows: seq<Entry>, sources: seq<Source>, fileSize: u64, gpus: int)
    requires UniqueRows(rows) && Accepted(rows, sources, fileSize, gpus)
    ensures exists p: seq<nat> :: Pairing(rows, sources, fileSize, gpus, p)
    ensures forall i, j | 0 <= i < j < |sources| :: sources[i].name != sources[j].name
  {
    forall i | 0 <= i < |sources| ensures 0 <= RowOf(rows, sources[i].name) < |rows| {
      assert StatusOf(rows, sources[i], fileSize, gpus) == Ok;
    }
    var p: seq<nat> := seq(|sources|, i requires 0 <= i < |sources| => RowOf(rows, sources[i].name));
    assert p == Rows(rows, sources);
    CoverCount(p, |rows|);
    forall i | 0 <= i < |sources| ensures rows[p[i]].sourceName == sources[i].name {
      RowOfFound(rows, sources[i].name);
    }
    assert Pairing(rows, sources, fileSize, gpus, p);
    forall i, j | 0 <= i < j < |sources| ensures sources[i].name != sources[j].name {
      assert p[i] != p[j];
    }
  }

  lemma PairsAccepted(rows: seq<Entry>, sources: seq<Source>, fileSize: u64, gpus: int, p: seq<nat>)
    requires UniqueRows(rows) && Pairing(rows, sources, fileSize, gpus, p)
    ensures Accepted(rows, sources, fileSize, gpus)
  {
    CoverCount(p, |rows|);
    forall i | 0 <= i < |sources| ensures RowOf(rows, sources[i].name) == p[i] {
      RowOfIs(rows, sources[i].name, p[i]);
    }
    forall k | 0 <= k < |rows| ensures k in Rows(rows, sources) {
      assert k in p;
      var i :| 0 <= i < |p| && p[i] == k;
      assert Rows(rows, sources)[i] == k;
    }
  }

  /** The loop over the source tensors. */
  method MatchSources(pack: PackIndex, sources: seq<Source>, fileSize: u64, gpus: int)
    returns (okRows: nat, failedRows: nat, matched: array<bool>)
    requires pack.Valid()
    ensures okRows == OkCount(pack.entries, sources, fileSize, gpus) && okRows + failedRows == |sources|
    ensures matched.Length == |pack.entries|
    ensures forall k | 0 <= k < matched.Length :: matched[k] <==> k in Rows(pack.entries, sources)
  {
    hide RowStatus, Rows, UniqueRows;
    ghost var rows := pack.entries;
    matched := new bool[|pack.entries|](_ => false);
    okRows, failedRows := 0, 0;
    NoSources(rows);
    assert sources[..0] == [];
    for i := 0 to |sources|
      invariant okRows == OkCount(rows, sources[..i], fileSize, gpus) && okRows + failedRows == i
      invariant matched.Length == |rows|
      invariant forall k | 0 <= k < |rows| :: matched[k] <==> k in Rows(rows, sources[..i])
    {
      var s := sources[i];
      var idx := pack.FindSourceName(s.name);
      RowOfIs(rows, s.name, idx);
      RowsNext(rows, sources, i);
      ghost var was := matched[..];
      assert forall k | 0 <= k < |rows| :: was[k] <==> k in Rows(rows, sources[..i]);
      if idx >= 0 { matched[idx] := true; }
      assert forall k | 0 <= k < |rows| :: matched[k] <==> (was[k] || k == idx);
      forall k | 0 <= k < |rows| ensures matched[k] <==> k in Rows(rows, sources[..i + 1]) {
        assert was[k] <==> k in Rows(rows, sources[..i]);
      }
      var status := if idx >= 0 then RowStatus(pack.entries[idx], s, fileSize, gpus) else MissingPackRow;
      if status == Ok { okRows := okRows + 1; } else { failedRows := failedRows + 1; }
      assert sources[..i + 1][..i] == sources[..i];
    }
    assert sources[..|sources|] == sources;
  }

  lemma NoSources(rows: seq<Entry>)
    ensures Rows(rows, []) == []
  {
  }

  /** How many of the first `n` rows no tensor has found. */
  function ExtraCount(found: seq<int>, n: nat): nat {
    if n == 0 then 0 else ExtraCount(found, n - 1) + if n - 1 in found then 0 else 1
  }

  lemma {:induction false} ExtraNone(found: seq<int>, n: nat)
    ensures ExtraCount(found, n) == 0 <==> forall k | 0 <= k < n :: k in found
  {
    if n > 0 {
      ExtraNone(found, n - 1);
    }
  }

  lemma {:induction false} ExtraCountIs(found: seq<int>, n: nat)
    ensures ExtraCount(found, n) == |set k | 0 <= k < n && k !in found|
  {
    var all := set k | 0 <= k < n && k !in found;
    if n == 0 {
      assert all == {};
    } else {
      ExtraCountIs(found, n - 1);
      var some := set k | 0 <= k < n - 1 && k !in found;
      assert all == if n - 1 in found then some else some + {n - 1};
    }
  }

  /** The loop over the rows that no tensor has matched. */
  method CountExtra(matched: array<bool>, ghost found: seq<int>) returns (extra: nat)
    requires forall k | 0 <= k < matched.Length :: matched[k] <==> k in found
    ensures extra == ExtraCount(found, matched.Length)
  {
    extra := 0;
    for i := 0 to matched.Length
      invariant extra == ExtraCount(found, i)
    {
      if !matched[i] { extra := extra + 1; }
    }
  }

  /** ds4_pack_reconcile, without the report. */
  method Reconcile(pack: PackIndex, sources: seq<Source>, fileSize: u64, gpus: int) returns (ok: bool, sum: Summary)
    requires pack.Valid()
    ensures ok <==> exists p: seq<nat> :: Pairing(pack.entries, sources, fileSize, gpus, p)
    ensures sum.sources == |sources| && sum.rows == |pack.entries|
    ensures sum.ok + sum.failed == sum.sources + sum.extra
    ensures sum.ok == OkCount(pack.entries, sources, fileSize, gpus)
    ensures sum.extra == ExtraCount(Rows(pack.entries, sources), |pack.entries|)
  {
    hide Pairing, OkCount, StatusOf, Rows, UniqueRows;
    var okRows, failedRows, matched := MatchSources(pack, sources, fileSize, gpus);
    var extraRows := CountExtra(matched, Rows(pack.entries, sources));
    ExtraNone(Rows(pack.entries, sources), |pack.entries|);
    sum := Summary(|sources|, |pack.entries|, okRows, failedRows + extraRows, extraRows);
    ok := !(sum.failed != 0 || sum.extra != 0 || sum.ok != sum.rows);
    OkCountAll(pack.entries, sources, fileSize, gpus);
    AcceptedIsPairing(pack.entries, sources, fileSize, gpus);
  }

  lemma RowsNext(rows: seq<Entry>, sources: seq<Source>, i: nat)
    requires i < |sources|
    ensures forall k :: k in Rows(rows, sources[..i + 1]) <==> k in Rows(rows, sources[..i]) || k == RowOf(rows, sources[i].name)
  {
    assert Rows(rows, sources[..i + 1]) == Rows(rows, sources[..i]) + [RowOf(rows, sources[i].name)];
  }
}
