/**
 The bounded store of diagnostic records: a built-in array that moves to the heap when it is full,
 a limit on the number of records and one on the bytes of their texts, and a refusal that lasts
 until the store is reset.
 */
module DiagRecords {
  import opened TargetInfo

  const ERROR := 1

  const CODE_CAP := 8
  const MESSAGE_CAP := 2048

  const DEFAULT_RECORD_LIMIT := 128
  const DEFAULT_BYTE_LIMIT := 1024 * 1024

  datatype Range = Range(startLine: int, startColumn: int, startOffset: int, endLine: int, endColumn: int, endOffset: int)

  // A diagnostic as it is reported, its message already formatted.
  datatype Report = Report(severity: int, code: string, sourceName: string, range: Range, message: string)

  datatype Record = Record(severity: int, range: Range, code: string, sourceName: string, message: string)

  const EMPTY := Record(0, Range(0, 0, 0, 0, 0, 0), "", "", "")

  // What fits a character array of `cap`.
  function Clipped(s: string, cap: nat): string
    requires cap > 0
  {
    if |s| < cap then s else s[..cap - 1]
  }

  function Stored(r: Report): Record {
    Record(r.severity, r.range, Clipped(r.code, CODE_CAP), r.sourceName, Clipped(r.message, MESSAGE_CAP))
  }

  // What a record says of a report: everything but what its code and its message have too much.
  predicate IsRecordOf(d: Record, r: Report) {
    && d.severity == r.severity
    && d.range == r.range
    && d.sourceName == r.sourceName
    && d.code == (if |r.code| <= 7 then r.code else r.code[..7])
    && d.message == (if |r.message| <= 2047 then r.message else r.message[..2047])
  }

  lemma StoredIsRecord(r: Report)
    ensures IsRecordOf(Stored(r), r)
    ensures TextBytes(r) == |r.code| + |r.sourceName| + |Stored(r).message|
  {}

  // The number of errors among reports.
  lemma {:induction false} ErrorsAreCounted(rs: seq<Report>)
    ensures Errors(rs) == |set i: nat | i < |rs| && rs[i].severity == 1|
  {
    var all := set i: nat | i < |rs| && rs[i].severity == 1;
    if rs == [] {
      assert all == {};
    } else {
      var init := rs[..|rs| - 1];
      var before := set i: nat | i < |init| && init[i].severity == 1;
      ErrorsAreCounted(init);
      if rs[|init|].severity == 1 {
        assert all == before + {|init|};
      } else {
        assert all == before;
      }
    }
  }

  // The bytes of reports are the bytes of codes and source names, and of messages as they are kept.
  lemma {:induction false} BytesAreCounted(rs: seq<Report>, ds: seq<Record>)
    requires |ds| == |rs| && forall i :: 0 <= i < |rs| ==> IsRecordOf(ds[i], rs[i])
    ensures AllBytes(rs) == SumOf(rs, ds)
  {
    if rs != [] {
      BytesAreCounted(rs[..|rs| - 1], ds[..|ds| - 1]);
    }
  }

  function SumOf(rs: seq<Report>, ds: seq<Record>): nat
    requires |ds| == |rs|
  {
    if rs == [] then 0
    else
      SumOf(rs[..|rs| - 1], ds[..|ds| - 1]) +
      |rs[|rs| - 1].code| + |ds[|ds| - 1].sourceName| + |ds[|ds| - 1].message|
  }

  // The bytes a report counts for: a long message as it is cut, a long code in full.
  function TextBytes(r: Report): nat {
    |r.code| + |r.sourceName| + |Clipped(r.message, MESSAGE_CAP)|
  }

  function AllBytes(rs: seq<Report>): nat {
    if rs == [] then 0 else AllBytes(rs[..|rs| - 1]) + TextBytes(rs[|rs| - 1])
  }

  function Errors(rs: seq<Report>): nat {
    if rs == [] then 0 else Errors(rs[..|rs| - 1]) + if rs[|rs| - 1].severity == ERROR then 1 else 0
  }

  datatype Limits = Limits(isEnforced: bool, records: nat, bytes: nat)

  datatype Refusal = NotRefused | TooManyRecords | TooManyBytes

  // The reports in the store, and why the next one is refused.
  datatype Contents = Contents(kept: seq<Report>, refusal: Refusal)

  const NOTHING := Contents([], NotRefused)

  // ---------------------------------------------------------------- one attempt

  predicate Accepts(l: Limits, c: Contents, r: Report) {
    && (l.isEnforced ==> c.refusal.NotRefused?)
    && |c.kept| < l.records
    && (l.isEnforced ==> AllBytes(c.kept) + TextBytes(r) <= l.bytes)
  }

  function Attempt(l: Limits, c: Contents, r: Report): Contents {
    if Accepts(l, c, r) then c.(kept := c.kept + [r])
    else if !l.isEnforced || !c.refusal.NotRefused? then c
    else c.(refusal := if |c.kept| >= l.records then TooManyRecords else TooManyBytes)
  }

  function Attempts(l: Limits, c: Contents, rs: seq<Report>): Contents {
    if rs == [] then c else Attempt(l, Attempts(l, c, rs[..|rs| - 1]), rs[|rs| - 1])
  }

  // ---------------------------------------------------------------- whole runs

  // The first `n` reports of a run fit behind what is kept.
  predicate PrefixFits(l: Limits, kept: seq<Report>, rs: seq<Report>, n: nat)
    requires n <= |rs|
  {
    |kept| + n <= l.records && AllBytes(kept + rs[..n]) <= l.bytes
  }

  lemma {:induction false} BytesOfPrefix(rs: seq<Report>, n: nat)
    requires n <= |rs|
    ensures AllBytes(rs[..n]) <= AllBytes(rs)
  {
    if n < |rs| {
      BytesOfPrefix(rs[..|rs| - 1], n);
      assert rs[..|rs| - 1][..n] == rs[..n];
    } else {
      assert rs[..n] == rs;
    }
  }

  // The longest prefix that fits has `n` reports.
  predicate IsLongest(l: Limits, kept: seq<Report>, rs: seq<Report>, n: nat)
    requires n <= |rs|
  {
    PrefixFits(l, kept, rs, n) && forall m :: n < m <= |rs| ==> !PrefixFits(l, kept, rs, m)
  }

  // The contents after a run that kept `n` of its reports, with the reason the next was refused.
  predicate KeptPrefix(l: Limits, kept: seq<Report>, rs: seq<Report>, n: nat, c: Contents)
    requires n <= |rs|
  {
    && c.kept == kept + rs[..n]
    && (c.refusal == NotRefused <==> n == |rs|)
    && (c.refusal == TooManyRecords <==> n < |rs| && |kept| + n >= l.records)
  }

  // With limits enforced, what a run keeps is the longest prefix of its reports that fits; the
  // refusal says that it is not the whole run, and which limit cut it. Behind more than the limits
  // allow, as after lowering them, nothing more is kept.
  lemma KeepsWhatFits(l: Limits, kept: seq<Report>, rs: seq<Report>) returns (n: nat)
    requires l.isEnforced
    ensures n <= |rs| && KeptPrefix(l, kept, rs, n, Attempts(l, Contents(kept, NotRefused), rs))
    ensures if PrefixFits(l, kept, rs, 0) then IsLongest(l, kept, rs, n) else n == 0
  {
    hide AllBytes;
    if PrefixFits(l, kept, rs, 0) {
      n := KeepsLongestPrefix(l, kept, rs);
    } else {
      n := 0;
      assert kept + rs[..0] == kept;
      KeepsNothingMore(l, kept, rs);
    }
  }

  lemma {:induction false} KeepsNothingMore(l: Limits, kept: seq<Report>, rs: seq<Report>)
    requires l.isEnforced && (|kept| > l.records || AllBytes(kept) > l.bytes)
    ensures
      var refusal := if rs == [] then NotRefused else if |kept| >= l.records then TooManyRecords else TooManyBytes;
      Attempts(l, Contents(kept, NotRefused), rs) == Contents(kept, refusal)
  {
    hide AllBytes;
    hide TextBytes;
    if rs != [] {
      KeepsNothingMore(l, kept, rs[..|rs| - 1]);
    }
  }

  lemma {:induction false} KeepsLongestPrefix(l: Limits, kept: seq<Report>, rs: seq<Report>) returns (n: nat)
    requires l.isEnforced && PrefixFits(l, kept, rs, 0)
    ensures n <= |rs| && IsLongest(l, kept, rs, n)
    ensures KeptPrefix(l, kept, rs, n, Attempts(l, Contents(kept, NotRefused), rs))
  {
    hide AllBytes;
    if rs == [] {
      n := 0;
      assert kept + rs[..0] == kept;
    } else {
      var most := rs[..|rs| - 1];
      assert rs[..0] == most[..0];
      n := KeepsLongestPrefix(l, kept, most);
      var c := Attempts(l, Contents(kept, NotRefused), most);
      if n < |most| {
        StaysLongest(l, kept, rs, n);
      } else {
        n := OneMoreReport(l, kept, rs, c);
      }
    }
  }

  // Behind a refusal one more report changes nothing.
  lemma StaysLongest(l: Limits, kept: seq<Report>, rs: seq<Report>, n: nat)
    requires rs != [] && n < |rs| - 1 && IsLongest(l, kept, rs[..|rs| - 1], n)
    ensures IsLongest(l, kept, rs, n) && rs[..n] == rs[..|rs| - 1][..n]
  {
    hide AllBytes;
    var most := rs[..|rs| - 1];
    assert forall m :: 0 <= m <= |most| ==> rs[..m] == most[..m];
    forall m | n < m <= |most| ensures !PrefixFits(l, kept, rs, m) {
      assert !PrefixFits(l, kept, most, m);
    }
    CutStaysCut(l, kept, rs, |most|);
  }

  lemma OneMoreReport(l: Limits, kept: seq<Report>, rs: seq<Report>, c: Contents) returns (n: nat)
    requires l.isEnforced && rs != [] && c == Contents(kept + rs[..|rs| - 1], NotRefused)
    requires PrefixFits(l, kept, rs[..|rs| - 1], |rs| - 1)
    ensures n <= |rs| && IsLongest(l, kept, rs, n) && KeptPrefix(l, kept, rs, n, Attempt(l, c, rs[|rs| - 1]))
  {
    hide AllBytes;
    hide TextBytes;
    var most, last := rs[..|rs| - 1], rs[|rs| - 1];
    assert most[..|most|] == most && rs[..|rs|] == rs;
    assert kept + rs == c.kept + [last];
    BytesOfOneMore(c.kept, last);
    n := if Accepts(l, c, last) then |rs| else |most|;
  }

  lemma BytesOfOneMore(rs: seq<Report>, r: Report)
    ensures AllBytes(rs + [r]) == AllBytes(rs) + TextBytes(r)
  {
    hide TextBytes;
    assert (rs + [r])[..|rs|] == rs;
  }

  // A prefix that does not fit has no longer one that does.
  lemma CutStaysCut(l: Limits, kept: seq<Report>, rs: seq<Report>, m: nat)
    requires m < |rs| && !PrefixFits(l, kept, rs, m)
    ensures !PrefixFits(l, kept, rs, m + 1)
  {
    var longer := kept + rs[..m + 1];
    assert longer[..|kept| + m] == kept + rs[..m];
    BytesOfPrefix(longer, |kept| + m);
  }

  // Once refused, a run keeps nothing more and the reason stands.
  lemma {:induction false} RefusalLasts(l: Limits, c: Contents, rs: seq<Report>)
    requires l.isEnforced && c.refusal != NotRefused
    ensures Attempts(l, c, rs) == c
  {
    if rs != [] {
      RefusalLasts(l, c, rs[..|rs| - 1]);
    }
  }

  // Without enforced limits the store keeps the first records and never gives a reason.
  lemma {:induction false} KeepsFirstRecords(l: Limits, rs: seq<Report>)
    requires !l.isEnforced
    ensures
      var n := if |rs| < l.records then |rs| else l.records;
      Attempts(l, NOTHING, rs) == Contents(rs[..n], NotRefused)
  {
    if rs != [] {
      KeepsFirstRecords(l, rs[..|rs| - 1]);
      var n := if |rs| < l.records then |rs| else l.records;
      assert n < |rs| ==> rs[..|rs| - 1][..n] == rs[..n];
      assert n == |rs| ==> rs[..|rs| - 1][..n - 1] + [rs[|rs| - 1]] == rs[..n];
    } else {
      assert rs[..0] == [];
    }
  }

  // ---------------------------------------------------------------- the store

  class Store {
    const initial: array<Record>
    var records: array<Record>
    var recordCount: nat
    var errorCount: nat
    var recordCap: nat
    var recordLimit: nat
    var byteLimit: nat
    var bytes: nat
    var limitKind: nat
    var limitsEnforced: bool
    ghost var kept: seq<Report>

    ghost predicate Valid()
      reads this, records
    {
      && initial.Length == DEFAULT_RECORD_LIMIT
      && recordCount == |kept| <= recordCap == records.Length
      && DEFAULT_RECORD_LIMIT <= recordCap
      && (forall i :: 0 <= i < |kept| ==> records[i] == Stored(kept[i]))
      && bytes == AllBytes(kept)
      && errorCount == Errors(kept)
      && limitKind <= 2
    }

    ghost function Kept(): Contents
      reads this
    {
      Contents(kept, if limitKind == 0 then NotRefused else if limitKind == 1 then TooManyRecords else TooManyBytes)
    }

    function CurrentLimits(): Limits
      reads this
    {
      Limits(limitsEnforced, recordLimit, byteLimit)
    }

    constructor ()
      ensures Valid() && fresh(records)
      ensures Kept() == NOTHING && CurrentLimits() == Limits(false, DEFAULT_RECORD_LIMIT, DEFAULT_BYTE_LIMIT)
    {
      var a := new Record[DEFAULT_RECORD_LIMIT](_ => EMPTY);
      initial, records, recordCap := a, a, DEFAULT_RECORD_LIMIT;
      recordCount, errorCount, bytes, limitKind := 0, 0, 0, 0;
      recordLimit, byteLimit, limitsEnforced := DEFAULT_RECORD_LIMIT, DEFAULT_BYTE_LIMIT, false;
      kept := [];
    }

    method SetLimits(maxRecords: CInt, maxBytes: CInt) returns (r: int)
      requires Valid()
      modifies this
      ensures Valid() && Kept() == old(Kept()) && records == old(records)
      ensures r == if maxRecords > 0 && maxBytes > 0 then 0 else -1
      ensures CurrentLimits() == if r == 0 then Limits(true, maxRecords, maxBytes) else old(CurrentLimits())
    {
      if maxRecords <= 0 || maxBytes <= 0 {
        return -1;
      }
      recordLimit, byteLimit, limitsEnforced := maxRecords, maxBytes, true;
      r := 0;
    }

    method Reset()
      requires Valid()
      modifies this
      ensures Valid() && Kept() == NOTHING && CurrentLimits() == old(CurrentLimits()) && records == old(records)
    {
      recordCount, errorCount, bytes, limitKind := 0, 0, 0, 0;
      kept := [];
    }

    // Room for one more record; the built-in array is copied to the heap when it is full.
    method ReserveRecord() returns (ok: bool)
      requires Valid()
      modifies this
      ensures Valid() && Kept() == old(Kept()) && CurrentLimits() == old(CurrentLimits())
      ensures records == old(records) || fresh(records)
      ensures recordCount < recordLimit ==> ok
      ensures ok ==> recordCount < recordCap
    {
      if recordCount < recordCap {
        return true;
      }
      var nextCap := if recordCap != 0 then recordCap * 2 else 16;
      if nextCap > recordLimit {
        nextCap := recordLimit;
      }
      if nextCap <= recordCap {
        return false;
      }
      var was := records;
      var next := new Record[nextCap](i requires 0 <= i reads was => if i < was.Length then was[i] else EMPTY);
      records, recordCap := next, nextCap;
      ok := true;
    }

    // The record written into the next free place.
    method Append(r: Report)
      requires Valid() && recordCount < recordCap
      modifies this, records
      ensures Valid() && records == old(records) && CurrentLimits() == old(CurrentLimits())
      ensures Kept() == old(Kept()).(kept := old(kept) + [r])
    {
      hide Stored;
      hide TextBytes;
      records[recordCount] := Stored(r);
      recordCount := recordCount + 1;
      bytes := bytes + TextBytes(r);
      if r.severity == ERROR {
        errorCount := errorCount + 1;
      }
      ghost var was := kept;
      kept := kept + [r];
      assert kept[..|kept| - 1] == was;
    }

    method Report(r: Report) returns (stored: bool)
      requires Valid()
      modifies this, records
      ensures Valid() && CurrentLimits() == old(CurrentLimits())
      ensures records == old(records) || fresh(records)
      ensures stored == Accepts(old(CurrentLimits()), old(Kept()), r)
      ensures Kept() == Attempt(old(CurrentLimits()), old(Kept()), r)
    {
      hide Stored;
      hide TextBytes;
      hide AllBytes;
      hide Errors;
      if limitsEnforced && limitKind != 0 {
        return false;
      }
      if recordCount >= recordLimit {
        if limitsEnforced {
          limitKind := 1;
        }
        return false;
      }
      var textBytes := TextBytes(r);
      if limitsEnforced && (bytes > byteLimit || textBytes > byteLimit - bytes) {
        if limitKind == 0 {
          limitKind := 2;
        }
        return false;
      }
      var ok := ReserveRecord();
      if !ok {
        return false;
      }
      Append(r);
      stored := true;
    }

    // Reading a record back; nothing out of range.
    method RecordAt(index: int) returns (r: Record, found: bool)
      requires Valid()
      ensures found == (0 <= index < |kept|) && (found ==> r == Stored(kept[index]))
      ensures found ==> IsRecordOf(r, kept[index])
    {
      if index < 0 || index >= recordCount {
        return EMPTY, false;
      }
      StoredIsRecord(kept[index]);
      return records[index], true;
    }
  }

  // A whole run: what its reporters do to a store, one call after the other.
  method ReportAll(store: Store, rs: seq<Report>) returns (stored: nat)
    requires store.Valid()
    modifies store, store.records
    ensures store.Valid() && store.CurrentLimits() == old(store.CurrentLimits())
    ensures store.Kept() == Attempts(old(store.CurrentLimits()), old(store.Kept()), rs)
    ensures |store.kept| == |old(store.kept)| + stored
  {
    hide Attempt;
    hide Stored;
    var i := 0;
    stored := 0;
    while i < |rs|
      invariant 0 <= i <= |rs| && store.Valid() && store.CurrentLimits() == old(store.CurrentLimits())
      invariant store.records == old(store.records) || fresh(store.records)
      invariant store.Kept() == Attempts(old(store.CurrentLimits()), old(store.Kept()), rs[..i])
      invariant |store.kept| == |old(store.kept)| + stored
    {
      ghost var before := store.Kept();
      var ok := store.Report(rs[i]);
      AttemptCounts(store.CurrentLimits(), before, rs[i]);
      assert rs[..i + 1][..i] == rs[..i] && rs[..i + 1][i] == rs[i];
      i := i + 1;
      stored := stored + if ok then 1 else 0;
    }
    assert rs[..i] == rs;
  }

  lemma AttemptCounts(l: Limits, c: Contents, r: Report)
    ensures |Attempt(l, c, r).kept| == |c.kept| + if Accepts(l, c, r) then 1 else 0
  {}
}
