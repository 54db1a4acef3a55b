/** Pruning crash dumps, and the dry run that predicts it. */
module CrashDumps {
  import opened Collections

  datatype Summary = Summary(id: string, timestamp: int, panicValue: string, size: int)

  function Dumps(files: map<string, Summary>): set<Summary> {
    set id | id in files :: files[id]
  }

  /** Each dump is filed under its ID, and no two were taken at the same time. */
  predicate Filed(files: map<string, Summary>) {
    && (forall id :: id in files ==> files[id].id == id)
    && forall i, j :: i in files && j in files && i != j ==> files[i].timestamp != files[j].timestamp
  }

  // ----- what is to be removed -----

  predicate TooOld(s: Summary, maxAge: int, now: int) {
    maxAge > 0 && now - s.timestamp > maxAge
  }

  function Newer(dumps: set<Summary>, s: Summary): set<Summary> {
    set t | t in dumps && t.timestamp > s.timestamp
  }

  /** A dump goes when it is too old or `maxDumps` others are newer. */
  function Removable(dumps: set<Summary>, maxDumps: nat, maxAge: int, now: int): set<Summary> {
    set s | s in dumps && (TooOld(s, maxAge, now) || |Newer(dumps, s)| >= maxDumps)
  }

  /** The dumps among `some` whose deletion does not fail. */
  function Deletable(some: set<Summary>, undeletable: set<string>): set<Summary> {
    set s | s in some && s.id !in undeletable
  }

  predicate IsNewer(s: Summary, t: Summary) {
    s.timestamp > t.timestamp
  }

  predicate NewestFirst(list: seq<Summary>) {
    SortedBy(list, IsNewer)
  }

  ghost predicate Lists(list: seq<Summary>, dumps: set<Summary>) {
    NewestFirst(list) && forall s :: s in list <==> s in dumps
  }

  function First(list: seq<Summary>, n: nat): set<Summary>
    requires n <= |list|
  {
    set s | s in list[..n]
  }

  lemma {:induction false} FirstSize(list: seq<Summary>, n: nat)
    requires NewestFirst(list) && n <= |list|
    ensures |First(list, n)| == n
  {
    if n > 0 {
      FirstSize(list, n - 1);
      assert list[..n] == list[..n - 1] + [list[n - 1]];
      assert First(list, n) == First(list, n - 1) + {list[n - 1]};
      assert list[n - 1] !in First(list, n - 1);
    }
  }

  lemma InFirst(list: seq<Summary>, n: nat, i: nat)
    requires NewestFirst(list) && n <= |list| && i < |list|
    ensures list[i] in First(list, n) <==> i < n
  {
    if i < n {
      assert list[..n][i] == list[i];
    }
  }

  /** The position in a newest-first listing is the number of newer dumps. */
  lemma Position(list: seq<Summary>, dumps: set<Summary>, i: nat)
    requires Lists(list, dumps) && i < |list|
    ensures |Newer(dumps, list[i])| == i
  {
    FirstSize(list, i);
    forall t | t in dumps
      ensures t in First(list, i) <==> t.timestamp > list[i].timestamp
    {
      var k :| 0 <= k < |list| && list[k] == t;
      InFirst(list, i, k);
    }
    assert Newer(dumps, list[i]) == First(list, i);
  }

  // ----- the dry run -----

  method AppendOldDumps(summaries: seq<Summary>, maxAge: int, now: int, toRemove: seq<Summary>)
    returns (r: seq<Summary>)
    requires forall s :: s in summaries ==> s !in toRemove
    requires Unique(summaries) && Unique(toRemove)
    ensures Unique(r) && forall s :: s in r <==> s in toRemove || (s in summaries && TooOld(s, maxAge, now))
  {
    r := toRemove;
    if maxAge <= 0 {
      return;
    }
    for i := 0 to |summaries|
      invariant Unique(r) && forall s :: s in r <==> s in toRemove || (s in summaries[..i] && TooOld(s, maxAge, now))
    {
      assert summaries[..i + 1] == summaries[..i] + [summaries[i]];
      assert summaries[i] !in summaries[..i];
      if now - summaries[i].timestamp > maxAge {
        r := r + [summaries[i]];
      }
    }
    assert summaries[..|summaries|] == summaries;
  }

  method IsAlreadyMarked(summary: Summary, toRemove: seq<Summary>) returns (marked: bool)
    ensures marked <==> exists s :: s in toRemove && s.id == summary.id
  {
    for i := 0 to |toRemove|
      invariant forall j :: 0 <= j < i ==> toRemove[j].id != summary.id
    {
      if toRemove[i].id == summary.id {
        return true;
      }
    }
    marked := false;
  }

  predicate SameIDSame(q: seq<Summary>) {
    forall s, t :: s in q && t in q && s.id == t.id ==> s == t
  }

  method AppendExcessDumps(summaries: seq<Summary>, maxDumps: nat, toRemove: seq<Summary>) returns (r: seq<Summary>)
    requires SameIDSame(summaries) && Unique(summaries) && Unique(toRemove)
    requires forall s :: s in toRemove ==> s in summaries
    ensures Unique(r) && forall s :: s in r <==>
              s in toRemove || (maxDumps <= |summaries| && s in summaries[maxDumps..])
  {
    r := toRemove;
    if |summaries| <= maxDumps {
      return;
    }
    for i := maxDumps to |summaries|
      invariant Unique(r) && forall s :: s in r <==> s in toRemove || s in summaries[maxDumps..i]
    {
      assert summaries[maxDumps..i + 1] == summaries[maxDumps..i] + [summaries[i]];
      assert forall s :: s in summaries[maxDumps..i] ==> s in summaries;
      var marked := IsAlreadyMarked(summaries[i], r);
      if !marked {
        r := r + [summaries[i]];
      }
    }
    assert summaries[maxDumps..|summaries|] == summaries[maxDumps..];
  }

  lemma ExcessIsCount(list: seq<Summary>, dumps: set<Summary>, maxDumps: nat, s: Summary)
    requires Lists(list, dumps) && s in list
    ensures |Newer(dumps, s)| >= maxDumps <==> (maxDumps <= |list| && s in list[maxDumps..])
  {
    var i :| 0 <= i < |list| && list[i] == s;
    Position(list, dumps, i);
    if i >= maxDumps {
      assert list[maxDumps..][i - maxDumps] == s;
    }
  }

  /** DRY RUN. It marks each removable dump once, and nothing else. */
  method DetermineRemovableDumps(summaries: seq<Summary>, maxDumps: nat, maxAge: int, now: int,
                                 ghost dumps: set<Summary>)
    returns (toRemove: seq<Summary>)
    requires Lists(summaries, dumps) && SameIDSame(summaries)
    ensures Unique(toRemove) && forall s :: s in toRemove <==> s in Removable(dumps, maxDumps, maxAge, now)
  {
    toRemove := [];
    toRemove := AppendOldDumps(summaries, maxAge, now, toRemove);
    toRemove := AppendExcessDumps(summaries, maxDumps, toRemove);
    forall s | s in summaries
      ensures |Newer(dumps, s)| >= maxDumps <==> (maxDumps <= |summaries| && s in summaries[maxDumps..])
    {
      ExcessIsCount(summaries, dumps, maxDumps, s);
    }
  }

  // ----- pruning -----

  class FilesystemStorage {
    var files: map<string, Summary>

    constructor (initial: map<string, Summary>)
      ensures files == initial
    {
      files := initial;
    }

    /** The dumps, newest first. */
    method List() returns (summaries: seq<Summary>)
      requires Filed(files)
      ensures Lists(summaries, Dumps(files)) && SameIDSame(summaries)
    {
      summaries := [];
      var ids := KeysInAnyOrder(files.Keys);
      for i := 0 to |ids|
        invariant NewestFirst(summaries)
        invariant forall s :: s in summaries <==> s.id in ids[..i] && s.id in files && s == files[s.id]
      {
        var summary := files[ids[i]];
        assert ids[..i + 1] == ids[..i] + [ids[i]];
        assert ids[i] !in ids[..i];
        summaries := Insert(summaries, summary, IsNewer);
      }
      assert ids[..|ids|] == ids;
      assert forall s :: s in Dumps(files) ==> s == files[s.id];
    }

    method Delete(id: string, undeletable: set<string>) returns (ok: bool)
      modifies this
      ensures ok <==> id in old(files) && id !in undeletable
      ensures files == if ok then old(files) - {id} else old(files)
    {
      if id !in files || id in undeletable {
        return false;
      }
      files := files - {id};
      ok := true;
    }

    /** One deletion, after those of `gone`. */
    method DeleteOne(summary: Summary, undeletable: set<string>, ghost before: map<string, Summary>,
                     ghost gone: set<Summary>)
      returns (deleted: bool, ghost more: set<Summary>)
      requires Filed(before) && gone <= Dumps(before) && files == before - IDs(gone)
      requires summary in Dumps(before) && summary !in gone
      modifies this
      ensures deleted <==> summary.id !in undeletable
      ensures more == (if deleted then gone + {summary} else gone) && more <= Dumps(before)
      ensures files == before - IDs(more) && |more| == |gone| + if deleted then 1 else 0
    {
      hide IDs, Dumps;
      StillThere(before, gone, summary);
      FiledByID(before);
      more := gone;
      deleted := Delete(summary.id, undeletable);
      if deleted {
        OneMoreID(gone, summary);
        more := gone + {summary};
      }
    }

    method DeleteOld(summaries: seq<Summary>, maxAge: int, now: int, undeletable: set<string>) returns (removed: nat)
      requires Filed(files) && Unique(summaries) && forall s :: s in summaries <==> s in Dumps(files)
      modifies this
      ensures var gone := Deletable(Old(Dumps(old(files)), maxAge, now), undeletable);
              files == old(files) - IDs(gone) && removed == |gone|
    {
      hide Filed, IDs, Dumps, Unique;
      removed := 0;
      ghost var gone: set<Summary> := {};
      NoIDs(files);
      for i := 0 to |summaries|
        invariant forall s :: s in gone <==> s in summaries[..i] && TooOld(s, maxAge, now) && s.id !in undeletable
        invariant gone <= Dumps(old(files)) && files == old(files) - IDs(gone) && removed == |gone|
      {
        var summary := summaries[i];
        OneMoreListed(summaries, 0, i);
        if maxAge > 0 && now - summary.timestamp > maxAge {
          var deleted;
          deleted, gone := DeleteOne(summary, undeletable, old(files), gone);
          if !deleted {
            continue;
          }
          removed := removed + 1;
        }
      }
      assert summaries[..|summaries|] == summaries;
      assert gone == Deletable(Old(Dumps(old(files)), maxAge, now), undeletable);
    }

    method DeleteExcess(summaries: seq<Summary>, maxDumps: nat, undeletable: set<string>) returns (removed: nat)
      requires Filed(files) && Lists(summaries, Dumps(files))
      modifies this
      ensures var gone := Deletable(Excess(Dumps(old(files)), maxDumps), undeletable);
              files == old(files) - IDs(gone) && removed == |gone|
    {
      hide Filed, IDs, Newer, Dumps, Unique, Lists, Deletable, Excess, NewestFirst, TooOld, GoneOf;
      removed := 0;
      ghost var gone: set<Summary> := {};
      NoIDs(files);
      ListsUnique(summaries, Dumps(files));
      GoneNone(undeletable);
      if |summaries| <= maxDumps {
        assert |summaries| == maxDumps ==> summaries[maxDumps..] == [];
        ExcessListed(summaries, Dumps(files), maxDumps, gone, undeletable);
        return;
      }
      assert summaries[maxDumps..maxDumps] == [];
      for i := maxDumps to |summaries|
        invariant GoneOf(gone, summaries[maxDumps..i], undeletable)
        invariant gone <= Dumps(old(files)) && files == old(files) - IDs(gone) && removed == |gone|
      {
        var summary := summaries[i];
        OneMoreListed(summaries, maxDumps, i);
        GoneNext(gone, summaries[maxDumps..i], summary, undeletable);
        var deleted;
        deleted, gone := DeleteOne(summary, undeletable, old(files), gone);
        if !deleted {
          continue;
        }
        removed := removed + 1;
      }
      assert summaries[maxDumps..|summaries|] == summaries[maxDumps..];
      ExcessListed(summaries, Dumps(old(files)), maxDumps, gone, undeletable);
    }

    /** PRUNE. It deletes exactly the removable dumps that can be deleted, though it lists the
        directory again between its two passes, and reports how many those are. */
    method Prune(maxDumps: nat, maxAge: int, now: int, undeletable: set<string>) returns (removed: nat)
      requires Filed(files)
      modifies this
      ensures var gone := Deletable(Removable(Dumps(old(files)), maxDumps, maxAge, now), undeletable);
              files == old(files) - IDs(gone) && removed == |gone|
      ensures Filed(files)
      ensures Dumps(files) ==
              Dumps(old(files)) - Deletable(Removable(Dumps(old(files)), maxDumps, maxAge, now), undeletable)
    {
      hide IDs, Deletable, Removable, Old, Excess, Newer, Lists, Filed, Dumps, Unique;
      ghost var all := Dumps(files);
      var summaries := List();
      if |summaries| == 0 {
        EmptyPrune(files, summaries, maxDumps, maxAge, now, undeletable);
        return 0;
      }
      ListsUnique(summaries, all);
      var aged := DeleteOld(summaries, maxAge, now, undeletable);
      ghost var first := Deletable(Old(all, maxAge, now), undeletable);
      DeletableWithin(all, maxDumps, maxAge, now, undeletable);
      WithoutIDs(old(files), files, first);
      summaries := List();
      var excess := DeleteExcess(summaries, maxDumps, undeletable);
      ghost var second := Deletable(Excess(all - first, maxDumps), undeletable);
      TwoPasses(all, maxDumps, maxAge, now, undeletable);
      UnionIDs(first, second);
      removed := aged + excess;
      WithoutIDs(old(files), files, first + second);
    }
  }

  // ----- why two passes are one -----

  function IDs(dumps: set<Summary>): set<string> {
    set s | s in dumps :: s.id
  }

  function Old(dumps: set<Summary>, maxAge: int, now: int): set<Summary> {
    set s | s in dumps && TooOld(s, maxAge, now)
  }

  function Excess(dumps: set<Summary>, maxDumps: nat): set<Summary> {
    set s | s in dumps && |Newer(dumps, s)| >= maxDumps
  }

  /** The excess of what the age pass left, and what that pass removed, are together what
      one look at the whole directory would remove: nothing newer than a young dump is old. */
  lemma TwoPasses(all: set<Summary>, maxDumps: nat, maxAge: int, now: int, undeletable: set<string>)
    ensures var first := Deletable(Old(all, maxAge, now), undeletable);
            var second := Deletable(Excess(all - first, maxDumps), undeletable);
            first !! second && first + second == Deletable(Removable(all, maxDumps, maxAge, now), undeletable)
  {
    var first := Deletable(Old(all, maxAge, now), undeletable);
    forall s | s in all && !TooOld(s, maxAge, now)
      ensures Newer(all - first, s) == Newer(all, s)
    {
    }
  }

  lemma DeletableWithin(all: set<Summary>, maxDumps: nat, maxAge: int, now: int, undeletable: set<string>)
    ensures Deletable(Old(all, maxAge, now), undeletable) <= all
    ensures Deletable(Removable(all, maxDumps, maxAge, now), undeletable) <= all
  {
    hide Newer, TooOld;
  }

  lemma FiledByID(files: map<string, Summary>)
    requires Filed(files)
    ensures forall s :: s in Dumps(files) ==> s.id in files && files[s.id] == s
  {
  }

  lemma NoIDs(files: map<string, Summary>)
    ensures files == files - IDs({})
  {
  }

  lemma OneMoreListed(q: seq<Summary>, from: nat, i: nat)
    requires from <= i < |q| && Unique(q)
    ensures q[from..i + 1] == q[from..i] + [q[i]] && q[i] !in q[from..i]
  {
  }

  lemma OneMoreID(gone: set<Summary>, s: Summary)
    ensures IDs(gone + {s}) == IDs(gone) + {s.id}
  {
  }

  lemma UnionIDs(a: set<Summary>, b: set<Summary>)
    ensures IDs(a + b) == IDs(a) + IDs(b)
    ensures a !! b ==> |a + b| == |a| + |b|
  {
  }

  lemma StillThere(files: map<string, Summary>, gone: set<Summary>, s: Summary)
    requires Filed(files) && gone <= Dumps(files) && s in Dumps(files) && s !in gone
    ensures s.id !in IDs(gone)
  {
  }

  lemma WithoutIDs(before: map<string, Summary>, after: map<string, Summary>, gone: set<Summary>)
    requires Filed(before) && gone <= Dumps(before) && after == before - IDs(gone)
    ensures Filed(after) && Dumps(after) == Dumps(before) - gone
  {
    forall s | s in Dumps(before)
      ensures s in Dumps(after) <==> s !in gone
    {
      if s !in gone {
        StillThere(before, gone, s);
        assert after[s.id] == s;
      }
    }
  }

  lemma ListsUnique(list: seq<Summary>, dumps: set<Summary>)
    requires Lists(list, dumps)
    ensures Unique(list) && forall s :: s in list <==> s in dumps
  {
  }

  /** Of the dumps in `q`, those that could be deleted. */
  ghost predicate GoneOf(gone: set<Summary>, q: seq<Summary>, undeletable: set<string>) {
    forall s :: s in gone <==> s in q && s.id !in undeletable
  }

  lemma GoneNone(undeletable: set<string>)
    ensures GoneOf({}, [], undeletable)
  {
  }

  lemma GoneNext(gone: set<Summary>, q: seq<Summary>, s: Summary, undeletable: set<string>)
    requires GoneOf(gone, q, undeletable)
    ensures s in gone ==> s in q
    ensures GoneOf(if s.id in undeletable then gone else gone + {s}, q + [s], undeletable)
  {
  }

  lemma ExcessListed(list: seq<Summary>, all: set<Summary>, maxDumps: nat, gone: set<Summary>, undeletable: set<string>)
    requires Lists(list, all)
    requires GoneOf(gone, if maxDumps <= |list| then list[maxDumps..] else [], undeletable)
    ensures gone == Deletable(Excess(all, maxDumps), undeletable)
  {
    hide Newer;
    forall s | s in all
      ensures s in gone <==> s in Deletable(Excess(all, maxDumps), undeletable)
    {
      ExcessIsCount(list, all, maxDumps, s);
    }
  }

  lemma EmptyPrune(files: map<string, Summary>, list: seq<Summary>, maxDumps: nat, maxAge: int, now: int,
                   undeletable: set<string>)
    requires list == [] && Lists(list, Dumps(files))
    ensures var gone := Deletable(Removable(Dumps(files), maxDumps, maxAge, now), undeletable);
            gone == {} && files - IDs(gone) == files
  {
    hide Newer;
    assert Dumps(files) == {};
    assert Deletable(Removable(Dumps(files), maxDumps, maxAge, now), undeletable) == {};
    NoIDs(files);
  }

  // ----- what the dry run predicts -----

  /** PREDICTION. The dumps the dry run marks are the dumps that pruning removes exactly when
      none of them resists deletion; otherwise pruning removes the others. */
  lemma DryRunPredicts(all: set<Summary>, marked: set<Summary>, maxDumps: nat, maxAge: int, now: int,
                       undeletable: set<string>)
    requires marked == Removable(all, maxDumps, maxAge, now)
    ensures var rest := all - Deletable(Removable(all, maxDumps, maxAge, now), undeletable);
            (rest == all - marked <==> IDs(marked) !! undeletable)
  {
    hide Newer, TooOld;
    var gone := Deletable(Removable(all, maxDumps, maxAge, now), undeletable);
    if s :| s in marked && s !in gone {
      assert s.id in IDs(marked) && s in all - gone && s !in all - marked;
    } else {
      assert gone == marked;
    }
  }

  /** REMAINDER. Without failures, what stays is a newest-first run of at most `maxDumps`
      dumps, none too old, as long as it can be: one more would be too old or too many. */
  lemma RemainderIsNewest(list: seq<Summary>, all: set<Summary>, maxDumps: nat, maxAge: int, now: int) returns (n: nat)
    requires Lists(list, all)
    ensures n <= |list| && n <= maxDumps && all - Removable(all, maxDumps, maxAge, now) == First(list, n)
    ensures forall s :: s in First(list, n) ==> !TooOld(s, maxAge, now)
    ensures n < |list| ==> n == maxDumps || TooOld(list[n], maxAge, now)
  {
    hide Newer;
    n := 0;
    while n < |list| && n < maxDumps && !TooOld(list[n], maxAge, now)
      invariant n <= |list| && n <= maxDumps
      invariant forall j :: 0 <= j < n ==> !TooOld(list[j], maxAge, now)
    {
      n := n + 1;
    }
    forall s | s in all
      ensures s in Removable(all, maxDumps, maxAge, now) <==> s !in First(list, n)
    {
      var i :| 0 <= i < |list| && list[i] == s;
      Position(list, all, i);
      InFirst(list, n, i);
    }
  }

  function Smaller(a: int, b: int): int {
    if a < b then a else b
  }

  /** NEWEST. Without failures pruning keeps the newest dumps, as many as are allowed and young
      enough; without a maximal age, which is one that is not positive, all are. */
  lemma PruneKeepsNewest(list: seq<Summary>, all: set<Summary>, maxDumps: nat, maxAge: int, now: int)
    requires Lists(list, all)
    ensures var rest := all - Removable(all, maxDumps, maxAge, now);
            var young := set s | s in all && (maxAge <= 0 || now - s.timestamp <= maxAge);
            && rest <= young && |rest| == Smaller(maxDumps, |young|)
            && forall s, t :: s in rest && t in all - rest ==> t.timestamp < s.timestamp
  {
    hide Removable, First;
    var rest := all - Removable(all, maxDumps, maxAge, now);
    var young := set s | s in all && (maxAge <= 0 || now - s.timestamp <= maxAge);
    var n := RemainderIsNewest(list, all, maxDumps, maxAge, now);
    FirstSize(list, n);
    assert forall s :: s in rest ==> s in young;
    FewerNewer(rest, young);
    if n < maxDumps {
      AllYoungFirst(list, all, n, maxAge, now);
      assert young == rest;
    }
    FirstAreNewer(list, all, n);
  }

  lemma AllYoungFirst(list: seq<Summary>, all: set<Summary>, n: nat, maxAge: int, now: int)
    requires Lists(list, all) && n <= |list| && (n < |list| ==> TooOld(list[n], maxAge, now))
    ensures forall s :: s in all && !TooOld(s, maxAge, now) ==> s in First(list, n)
  {
    hide First;
    forall s | s in all && !TooOld(s, maxAge, now)
      ensures s in First(list, n)
    {
      var i :| 0 <= i < |list| && list[i] == s;
      InFirst(list, n, i);
      assert n < i ==> IsNewer(list[n], list[i]);
    }
  }

  lemma FirstAreNewer(list: seq<Summary>, all: set<Summary>, n: nat)
    requires Lists(list, all) && n <= |list|
    ensures forall s, t :: s in First(list, n) && t in all - First(list, n) ==> t.timestamp < s.timestamp
  {
    forall s, t | s in First(list, n) && t in all - First(list, n)
      ensures t.timestamp < s.timestamp
    {
      hide First;
      assert s in list by {
        FirstListed(list, n);
      }
      var i :| 0 <= i < |list| && list[i] == s;
      var j :| 0 <= j < |list| && list[j] == t;
      InFirst(list, n, i);
      InFirst(list, n, j);
      assert IsNewer(list[i], list[j]);
    }
  }

  lemma FirstListed(list: seq<Summary>, n: nat)
    requires n <= |list|
    ensures forall s :: s in First(list, n) ==> s in list
  {
  }

  /** A second pruning at the same time removes nothing. */
  lemma PruneIdempotent(all: set<Summary>, maxDumps: nat, maxAge: int, now: int)
    ensures var rest := all - Removable(all, maxDumps, maxAge, now);
            Removable(rest, maxDumps, maxAge, now) == {}
  {
    var rest := all - Removable(all, maxDumps, maxAge, now);
    forall s | s in rest
      ensures |Newer(rest, s)| < maxDumps
    {
      FewerNewer(Newer(rest, s), Newer(all, s));
    }
  }

  lemma {:induction false} FewerNewer(a: set<Summary>, b: set<Summary>)
    requires a <= b
    ensures |a| <= |b|
  {
    assert b == a + (b - a);
  }
}
