/**
 The resident credential store of ctap2/credstore.go: a list on disk that behaves as an
 insertion-ordered map and is replaced atomically. JSON is taken to invert itself.
 */
module CredStore {
  import opened Bytes

  /** Go strings are byte sequences. */
  datatype Cred = Cred(
    credId: seq<byte>, rpIdHash: seq<byte>, rpId: seq<byte>, rpName: seq<byte>,
    userId: seq<byte>, userName: seq<byte>, displayName: seq<byte>)

  /** What is found at a path: nothing, something unreadable, bytes that do not parse, or a list. */
  datatype File = Absent | Unreadable | Garbage | Holds(creds: seq<Cred>)

  /** How the environment lets one file operation go. */
  datatype Fate = Works | Fails | CrashesBefore | CrashesAfter

  datatype Outcome = Saved | Failed | Crashed

  /** The two paths the store uses; `plan(i)` is the fate of the i-th file operation. */
  class Disk {
    const plan: nat -> Fate
    var ops: nat
    var visible: File
    var tmp: File

    constructor (plan: nat -> Fate, visible: File, tmp: File)
      ensures this.visible == visible && this.tmp == tmp
    {
      this.plan, ops, this.visible, this.tmp := plan, 0, visible, tmp;
    }

    method MkdirAll() returns (f: Fate)
      modifies this`ops
      ensures f == plan(old(ops)) && ops == old(ops) + 1
    {
      f := plan(ops);
      ops := ops + 1;
    }

    method ReadFile() returns (f: Fate, content: File)
      modifies this`ops
      ensures f == plan(old(ops)) && ops == old(ops) + 1
      ensures content == if f.Works? then visible else Unreadable
    {
      f := plan(ops);
      ops := ops + 1;
      content := if f.Works? then visible else Unreadable;
    }

    /** A write that does not run to its end leaves an unparsable file. */
    method WriteTmp(content: File) returns (f: Fate)
      modifies this`ops, this`tmp
      ensures f == plan(old(ops)) && ops == old(ops) + 1
      ensures tmp == if f.Works? || f.CrashesAfter? then content else Garbage
    {
      f := plan(ops);
      ops := ops + 1;
      tmp := if f.Works? || f.CrashesAfter? then content else Garbage;
    }

    /** Renaming is atomic: it happens or it does not. */
    method Rename() returns (f: Fate)
      modifies this
      ensures f == plan(old(ops)) && ops == old(ops) + 1
      ensures visible == (if f.Works? || f.CrashesAfter? then old(tmp) else old(visible))
      ensures tmp == (if f.Works? || f.CrashesAfter? then Absent else old(tmp))
    {
      f := plan(ops);
      ops := ops + 1;
      if f.Works? || f.CrashesAfter? {
        visible, tmp := tmp, Absent;
      }
    }
  }

  /** The position of the first credential with this id, or the length of the list. */
  function IndexOf(cs: seq<Cred>, id: seq<byte>): (i: nat)
    ensures i <= |cs|
    ensures i < |cs| ==> cs[i].credId == id
    ensures forall j :: 0 <= j < i ==> cs[j].credId != id
  {
    if cs == [] || cs[0].credId == id then 0 else 1 + IndexOf(cs[1..], id)
  }

  /** Replace in place, or append. */
  function Upsert(cs: seq<Cred>, c: Cred): seq<Cred> {
    var i := IndexOf(cs, c.credId);
    if i < |cs| then cs[i := c] else cs + [c]
  }

  function Matching(cs: seq<Cred>, rpIdHash: seq<byte>): seq<Cred>
    decreases |cs|
  {
    if cs == [] then [] else
    var m := Matching(cs[..|cs| - 1], rpIdHash);
    if cs[|cs| - 1].rpIdHash == rpIdHash then m + [cs[|cs| - 1]] else m
  }

  function Content(f: File): Option<seq<Cred>> {
    match f
    case Absent => Some([])
    case Holds(cs) => Some(cs)
    case _ => None
  }

  /** What one `Save` may do to the visible file, crashes included. */
  predicate SaveTransition(f: File, c: Cred, g: File, o: Outcome) {
    var before := Content(f);
    && (g == f || (before.Some? && g == Holds(Upsert(before.value, c))))
    && (o == Saved ==> before.Some? && g == Holds(Upsert(before.value, c)))
    && (o == Failed ==> g == f)
  }

  class CredStore {
    const disk: Disk

    constructor (disk: Disk)
      ensures this.disk == disk
    {
      this.disk := disk;
    }

    method Load() returns (r: Option<seq<Cred>>, crashed: bool)
      modifies disk`ops
      ensures crashed <==> disk.plan(old(disk.ops)).CrashesBefore? || disk.plan(old(disk.ops)).CrashesAfter?
      ensures r == if disk.plan(old(disk.ops)).Works? then Content(disk.visible) else None
      ensures disk.ops == old(disk.ops) + 1
    {
      var f, content := disk.ReadFile();
      crashed := f.CrashesBefore? || f.CrashesAfter?;
      match content
      case Absent => r := Some([]);
      case Holds(cs) => r := Some(cs);
      case _ => r := None;
    }

    /** `store`: whatever happens, the visible file is the complete old or the complete new list. */
    method Store(creds: seq<Cred>) returns (o: Outcome)
      modifies disk
      ensures disk.visible == old(disk.visible) || disk.visible == Holds(creds)
      ensures o == Saved ==> disk.visible == Holds(creds)
      ensures o == Failed ==> disk.visible == old(disk.visible)
      ensures o == Saved <==> forall i :: old(disk.ops) <= i < old(disk.ops) + 3 ==> disk.plan(i) == Works
    {
      ghost var first := disk.ops;
      var f := disk.MkdirAll();
      if f != Works {
        assert disk.plan(first) != Works;
        return if f == Fails then Failed else Crashed;
      }
      f := disk.WriteTmp(Holds(creds));
      if f != Works {
        assert disk.plan(first + 1) != Works;
        return if f == Fails then Failed else Crashed;
      }
      f := disk.Rename();
      if f != Works {
        assert disk.plan(first + 2) != Works;
        return if f == Fails then Failed else Crashed;
      }
      o := Saved;
    }

    method Save(c: Cred) returns (o: Outcome)
      modifies disk
      ensures SaveTransition(old(disk.visible), c, disk.visible, o)
      ensures o == Saved <==> Content(old(disk.visible)).Some?
                              && forall i :: old(disk.ops) <= i < old(disk.ops) + 4 ==> disk.plan(i) == Works
    {
      ghost var first := disk.ops;
      var loaded, crashed := this.Load();
      if crashed {
        assert disk.plan(first) != Works;
        return Crashed;
      }
      if loaded.None? {
        assert Content(disk.visible).Some? ==> disk.plan(first) != Works;
        return Failed;
      }
      var creds := loaded.value;
      var i := 0;
      while i < |creds|
        invariant 0 <= i <= |creds|
        invariant forall j :: 0 <= j < i ==> creds[j].credId != c.credId
      {
        if creds[i].credId == c.credId {
          creds := creds[i := c];
          assert creds == Upsert(loaded.value, c);
          o := Store(creds);
          return;
        }
        i := i + 1;
      }
      assert creds + [c] == Upsert(loaded.value, c);
      o := Store(creds + [c]);
    }

    method FindByRPID(rpIdHash: seq<byte>) returns (r: Option<seq<Cred>>)
      modifies disk`ops
      ensures var loaded := if disk.plan(old(disk.ops)).Works? then Content(disk.visible) else None;
              r == if loaded.Some? then Some(Matching(loaded.value, rpIdHash)) else None
    {
      var loaded, crashed := this.Load();
      if loaded.None? {
        return None;
      }
      var creds := loaded.value;
      var result: seq<Cred> := [];
      var i := 0;
      while i < |creds|
        invariant 0 <= i <= |creds|
        invariant result == Matching(creds[..i], rpIdHash)
      {
        assert creds[..i + 1][..i] == creds[..i];
        if creds[i].rpIdHash == rpIdHash {
          result := result + [creds[i]];
        }
        i := i + 1;
      }
      assert creds[..i] == creds;
      r := Some(result);
    }
  }

  // ----- runs -----

  /** The list after saving `cs` in order on top of the list `base`. */
  function Saves(base: seq<Cred>, cs: seq<Cred>): seq<Cred>
    decreases |cs|
  {
    if cs == [] then base else Upsert(Saves(base, cs[..|cs| - 1]), cs[|cs| - 1])
  }

  lemma SavesSnoc(base: seq<Cred>, cs: seq<Cred>, c: Cred)
    ensures Saves(base, cs + [c]) == Upsert(Saves(base, cs), c)
  {
    assert (cs + [c])[..|cs|] == cs;
  }

  lemma {:induction false} SavesAppend(base: seq<Cred>, cs: seq<Cred>, ds: seq<Cred>)
    ensures Saves(base, cs + ds) == Saves(Saves(base, cs), ds)
    decreases |ds|
  {
    if ds == [] {
      assert cs + ds == cs;
    } else {
      hide Upsert, Saves;
      var n := |ds| - 1;
      SavesAppend(base, cs, ds[..n]);
      SavesSnoc(base, cs + ds[..n], ds[n]);
      SavesSnoc(Saves(base, cs), ds[..n], ds[n]);
      assert ds == ds[..n] + [ds[n]] && cs + ds == cs + ds[..n] + [ds[n]];
    }
  }

  /** A run of `Save` calls, any of which may fail or crash: the file before each and after the last. */
  ghost predicate SaveRun(files: seq<File>, cs: seq<Cred>, os: seq<Outcome>) {
    && |files| == |cs| + 1 && |os| == |cs|
    && forall i :: 0 <= i < |cs| ==> SaveTransition(files[i], cs[i], files[i + 1], os[i])
  }

  /** Whether the i-th save reached the disk: acknowledged, or seen in the file after a crash. */
  predicate Reached(files: seq<File>, os: seq<Outcome>, i: nat)
    requires i < |os| && |files| == |os| + 1
  {
    os[i] == Saved || files[i + 1] != files[i]
  }

  /** The saves that reached the disk. */
  function Effective(files: seq<File>, cs: seq<Cred>, os: seq<Outcome>): seq<Cred>
    requires |files| == |cs| + 1 && |os| == |cs|
    decreases |cs|
  {
    if cs == [] then [] else
    var n := |cs| - 1;
    var es := Effective(files[..n + 1], cs[..n], os[..n]);
    if Reached(files, os, n) then es + [cs[n]] else es
  }

  /** Every acknowledged save is effective. */
  lemma {:induction false} AcknowledgedIsEffective(files: seq<File>, cs: seq<Cred>, os: seq<Outcome>, i: nat)
    requires |files| == |cs| + 1 && |os| == |cs| && i < |cs| && os[i] == Saved
    ensures cs[i] in Effective(files, cs, os)
    decreases |cs|
  {
    var n := |cs| - 1;
    if i < n {
      AcknowledgedIsEffective(files[..n + 1], cs[..n], os[..n], i);
    }
  }

  /** Whatever fails or crashes on the way, a readable file stays a complete list: the one the
      effective saves make of what was there before. */
  lemma {:induction false} RunsLeaveCompleteLists(files: seq<File>, cs: seq<Cred>, os: seq<Outcome>)
    requires SaveRun(files, cs, os) && (files[0].Absent? || files[0].Holds?)
    ensures var base := if files[0].Absent? then [] else files[0].creds;
            var es := Effective(files, cs, os);
            files[|cs|] == if es == [] then files[0] else Holds(Saves(base, es))
    decreases |cs|
  {
    if cs != [] {
      var base := if files[0].Absent? then [] else files[0].creds;
      var n := |cs| - 1;
      RunsLeaveCompleteLists(files[..n + 1], cs[..n], os[..n]);
      var es := Effective(files[..n + 1], cs[..n], os[..n]);
      assert Content(files[n]) == Some(Saves(base, es));
      hide Saves, Upsert;
      SavesSnoc(base, es, cs[n]);
    }
  }

  /** A file that cannot be read or parsed is never replaced, and no save succeeds. */
  lemma {:induction false} UnreadableStays(files: seq<File>, cs: seq<Cred>, os: seq<Outcome>)
    requires SaveRun(files, cs, os) && (files[0].Unreadable? || files[0].Garbage?)
    ensures files[|cs|] == files[0] && forall i :: 0 <= i < |cs| ==> os[i] != Saved
    decreases |cs|
  {
    if cs != [] {
      var n := |cs| - 1;
      UnreadableStays(files[..n + 1], cs[..n], os[..n]);
      assert SaveTransition(files[n], cs[n], files[n + 1], os[n]);
      forall i | 0 <= i < |cs| ensures os[i] != Saved {
        if i < n {
          assert os[..n][i] == os[i];
        }
      }
    }
  }

  function Ids(cs: seq<Cred>): (r: seq<seq<byte>>)
    ensures |r| == |cs|
  {
    seq(|cs|, i requires 0 <= i < |cs| => cs[i].credId)
  }

  /** The distinct elements of `s`, in the order of their first occurrence. */
  function FirstOccurrences(s: seq<seq<byte>>): (r: seq<seq<byte>>)
    ensures forall x :: x in s <==> x in r
    decreases |s|
  {
    if s == [] then [] else
    var r := FirstOccurrences(s[..|s| - 1]);
    assert forall x :: x in s <==> x in s[..|s| - 1] || x == s[|s| - 1];
    if s[|s| - 1] in r then r else r + [s[|s| - 1]]
  }

  /** The last credential of `cs` with this id. */
  function LastWith(cs: seq<Cred>, id: seq<byte>): Cred
    requires id in Ids(cs)
    decreases |cs|
  {
    var n := |cs| - 1;
    if cs[n].credId == id then cs[n] else
    assert id in Ids(cs[..n]) by {
      var i :| 0 <= i < |cs| && Ids(cs)[i] == id;
      assert Ids(cs[..n])[i] == id;
    }
    LastWith(cs[..n], id)
  }

  predicate Distinct(s: seq<seq<byte>>) {
    forall i, j :: 0 <= i < j < |s| ==> s[i] != s[j]
  }

  lemma UpsertIds(cs: seq<Cred>, c: Cred)
    ensures Ids(Upsert(cs, c)) == if c.credId in Ids(cs) then Ids(cs) else Ids(cs) + [c.credId]
  {
    var i := IndexOf(cs, c.credId);
    if i < |cs| {
      assert Ids(cs)[i] == c.credId;
    }
  }

  lemma IdsSnoc(cs: seq<Cred>)
    requires cs != []
    ensures Ids(cs) == Ids(cs[..|cs| - 1]) + [cs[|cs| - 1].credId]
  {}

  /** Refinement: after any saves, from no file, the stored ids are the distinct ones in order of
      first insertion. */
  lemma {:induction false} SavesKeepInsertionOrder(cs: seq<Cred>)
    ensures Ids(Saves([], cs)) == FirstOccurrences(Ids(cs))
    ensures Distinct(Ids(Saves([], cs)))
    decreases |cs|
  {
    if cs != [] {
      hide Upsert;
      var n := |cs| - 1;
      SavesKeepInsertionOrder(cs[..n]);
      UpsertIds(Saves([], cs[..n]), cs[n]);
      IdsSnoc(cs);
      assert Ids(cs)[..n] == Ids(cs[..n]);
    }
  }

  /** Refinement: every stored credential is the last one saved under its id. */
  lemma {:induction false} LastWriteWins(cs: seq<Cred>, k: nat)
    requires k < |Saves([], cs)|
    ensures Saves([], cs)[k].credId in Ids(cs)
    ensures Saves([], cs)[k] == LastWith(cs, Saves([], cs)[k].credId)
    decreases |cs|
  {
    var n := |cs| - 1;
    var before, c := Saves([], cs[..n]), cs[n];
    SavesKeepInsertionOrder(cs);
    SavesKeepInsertionOrder(cs[..n]);
    assert Saves([], cs)[k].credId == Ids(Saves([], cs))[k];
    assert Saves([], cs)[k].credId in FirstOccurrences(Ids(cs));
    var i := IndexOf(before, c.credId);
    if k != i {
      assert k < |before| && Saves([], cs)[k] == before[k];
      assert Ids(before)[k] == before[k].credId;
      assert i < |before| ==> Ids(before)[i] == c.credId;
      LastWriteWins(cs[..n], k);
    }
  }

  /** A list with distinct ids is what saving its entries one by one leaves, so both refinements hold
      of the saves of several runs of the program together. */
  lemma {:induction false} DistinctListIsItsSaves(base: seq<Cred>)
    requires Distinct(Ids(base))
    ensures Saves([], base) == base
    decreases |base|
  {
    if base != [] {
      var n := |base| - 1;
      forall i, j | 0 <= i < j < n ensures Ids(base[..n])[i] != Ids(base[..n])[j] {
        assert Ids(base)[i] != Ids(base)[j];
      }
      DistinctListIsItsSaves(base[..n]);
      forall j | 0 <= j < n ensures base[..n][j].credId != base[n].credId {
        assert Ids(base)[j] != Ids(base)[n];
      }
      assert base[..n] + [base[n]] == base;
    }
  }

  lemma {:induction false} MatchingExactly(cs: seq<Cred>, h: seq<byte>, c: Cred)
    ensures c in Matching(cs, h) <==> c in cs && c.rpIdHash == h
    decreases |cs|
  {
    if cs != [] {
      MatchingExactly(cs[..|cs| - 1], h, c);
      assert cs == cs[..|cs| - 1] + [cs[|cs| - 1]];
    }
  }

  /** Filtering goes part by part, so it keeps the order of the list. */
  lemma {:induction false} MatchingAppend(cs: seq<Cred>, ds: seq<Cred>, h: seq<byte>)
    ensures Matching(cs + ds, h) == Matching(cs, h) + Matching(ds, h)
    decreases |ds|
  {
    if ds == [] {
      assert cs + ds == cs;
    } else {
      MatchingAppend(cs, ds[..|ds| - 1], h);
      assert (cs + ds)[..|cs + ds| - 1] == cs + ds[..|ds| - 1];
    }
  }

  lemma UpsertKeeps(cs: seq<Cred>, d: Cred, c: Cred)
    requires c in cs && d.credId != c.credId
    ensures c in Upsert(cs, d)
  {
    var k :| 0 <= k < |cs| && cs[k] == c;
    assert Upsert(cs, d)[k] == c;
  }

  lemma UpsertHolds(cs: seq<Cred>, c: Cred)
    ensures c in Upsert(cs, c)
  {
    var i := IndexOf(cs, c.credId);
    assert Upsert(cs, c)[i] == c;
  }

  /** Nothing is stored that was not there before or saved. */
  lemma {:induction false} SavesFrom(base: seq<Cred>, cs: seq<Cred>, c: Cred)
    requires c in Saves(base, cs)
    ensures c in base || c in cs
    decreases |cs|
  {
    if cs != [] && c != cs[|cs| - 1] {
      SavesFrom(base, cs[..|cs| - 1], c);
    }
  }

  lemma {:induction false} SavesKeep(base: seq<Cred>, c: Cred, later: seq<Cred>)
    requires c in base && forall d :: d in later ==> d.credId != c.credId
    ensures c in Saves(base, later)
    decreases |later|
  {
    if later != [] {
      hide Upsert;
      var n := |later| - 1;
      SavesKeep(base, c, later[..n]);
      UpsertKeeps(Saves(base, later[..n]), later[n], c);
    }
  }

  /** Whatever was stored before, a saved credential is found under its RP, with all its fields, after
      any later saves under other ids. */
  lemma SavedIsFound(base: seq<Cred>, c: Cred, later: seq<Cred>)
    requires forall d :: d in later ==> d.credId != c.credId
    ensures c in Matching(Saves(Upsert(base, c), later), c.rpIdHash)
  {
    UpsertHolds(base, c);
    SavesKeep(Upsert(base, c), c, later);
    MatchingExactly(Saves(Upsert(base, c), later), c.rpIdHash, c);
  }

  /** Saves under ids that are not stored yet only extend the list, so the credential found first
      for an RP stays the one that was inserted first. */
  lemma {:induction false} NewIdsOnlyExtend(base: seq<Cred>, later: seq<Cred>)
    requires forall d :: d in later ==> d.credId !in Ids(base)
    ensures base <= Saves(base, later)
    decreases |later|
  {
    if later != [] {
      hide Saves;
      var n := |later| - 1;
      NewIdsOnlyExtend(base, later[..n]);
      SavesSnoc(base, later[..n], later[n]);
      assert later == later[..n] + [later[n]];
      UpsertExtends(base, Saves(base, later[..n]), later[n]);
    }
  }

  lemma UpsertExtends(base: seq<Cred>, now: seq<Cred>, d: Cred)
    requires base <= now && d.credId !in Ids(base)
    ensures base <= Upsert(now, d)
  {
    forall j | 0 <= j < |base| ensures now[j].credId != d.credId {
      assert now[j] == base[j] && Ids(base)[j] in Ids(base);
    }
  }

  lemma EarliestStaysFirst(base: seq<Cred>, later: seq<Cred>, h: seq<byte>)
    requires forall d :: d in later ==> d.credId !in Ids(base)
    requires Matching(base, h) != []
    ensures Matching(Saves(base, later), h) != []
    ensures Matching(Saves(base, later), h)[0] == Matching(base, h)[0]
  {
    NewIdsOnlyExtend(base, later);
    var all, n := Saves(base, later), |base|;
    MatchingAppend(all[..n], all[n..], h);
    assert all == all[..n] + all[n..] && all[..n] == base;
  }
}
