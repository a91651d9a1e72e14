/** MatchLibraries of bootx/main/drivers.c: marking the libraries of the modules to load. */
module Drivers {
  import opened Options

  /** What a module's dictionary says: its identifier and its list of libraries, if present. */
  datatype Dict = Dict(identifier: Option<string>, libraries: Option<seq<string>>)

  /** FindModule: the first module with that identifier, or the number of modules. */
  function FindModule(dicts: seq<Dict>, name: string): (i: nat)
    ensures i <= |dicts|
    ensures i < |dicts| ==> dicts[i].identifier == Some(name)
    ensures forall j :: 0 <= j < i ==> dicts[j].identifier != Some(name)
  {
    if dicts == [] || dicts[0].identifier == Some(name) then 0 else 1 + FindModule(dicts[1..], name)
  }

  function Libraries(d: Dict): seq<string> {
    if d.libraries.Some? then d.libraries.value else []
  }

  /** Module i lists a library that is module j. */
  ghost predicate Needs(dicts: seq<Dict>, i: nat, j: nat) {
    i < |dicts| && j < |dicts| && exists name :: name in Libraries(dicts[i]) && FindModule(dicts, name) == j
  }

  /** With a module, the set contains its libraries. */
  ghost predicate Closed(dicts: seq<Dict>, s: set<nat>) {
    forall i, j :: i in s && Needs(dicts, i, j) ==> j in s
  }

  /** The least set that contains the start and is closed. */
  ghost predicate IsClosure(dicts: seq<Dict>, start: set<nat>, s: set<nat>) {
    && start <= s && Closed(dicts, s)
    && forall t :: start <= t && Closed(dicts, t) ==> s <= t
  }

  lemma ClosureUnique(dicts: seq<Dict>, start: set<nat>, s: set<nat>, t: set<nat>)
    requires IsClosure(dicts, start, s) && IsClosure(dicts, start, t)
    ensures s == t
  {
  }

  lemma NeedsNamed(dicts: seq<Dict>, i: nat, name: string)
    requires i < |dicts| && name in Libraries(dicts[i]) && FindModule(dicts, name) < |dicts|
    ensures Needs(dicts, i, FindModule(dicts, name))
  {
  }

  /** Library m of module i is module j: the first one with the identifier listed. */
  predicate ListsAt(dicts: seq<Dict>, i: nat, j: nat, m: nat)
    requires i < |dicts| && j < |dicts|
  {
    && dicts[i].libraries.Some? && m < |dicts[i].libraries.value|
    && dicts[j].identifier == Some(dicts[i].libraries.value[m])
    && forall k :: 0 <= k < j ==> dicts[k].identifier != dicts[j].identifier
  }

  /** Only what a module lists is needed by it, and all of that. */
  lemma NeedsExactly(dicts: seq<Dict>, i: nat, j: nat)
    ensures Needs(dicts, i, j) <==> i < |dicts| && j < |dicts| && exists m: nat :: ListsAt(dicts, i, j, m)
  {
    if i < |dicts| && j < |dicts| {
      if Needs(dicts, i, j) {
        var m := NeedsIndex(dicts, i, j);
        assert ListsAt(dicts, i, j, m);
      }
      if m: nat :| ListsAt(dicts, i, j, m) {
        NeedsNamed(dicts, i, dicts[i].libraries.value[m]);
      }
    }
  }

  lemma NeedsIndex(dicts: seq<Dict>, i: nat, j: nat) returns (m: nat)
    requires Needs(dicts, i, j)
    ensures i < |dicts| && m < |Libraries(dicts[i])| && FindModule(dicts, Libraries(dicts[i])[m]) == j < |dicts|
  {
    var name :| name in Libraries(dicts[i]) && FindModule(dicts, name) == j;
    m :| 0 <= m < |Libraries(dicts[i])| && Libraries(dicts[i])[m] == name;
  }

  /** Marks may have been added, nothing else changed. */
  ghost predicate MarksAdded(w: seq<int>, w': seq<int>) {
    |w| == |w'| && forall k :: 0 <= k < |w| ==> if w[k] == 0 then 0 <= w'[k] <= 1 else w'[k] == w[k]
  }

  // ----- The marks themselves, step by step

  /** The first module with the identifier is marked, if there is one that is not marked yet. */
  function MarkName(dicts: seq<Dict>, w: seq<int>, name: string): (w': seq<int>)
    requires |w| == |dicts|
    ensures |w'| == |w|
  {
    var j := FindModule(dicts, name);
    if j < |w| && w[j] == 0 then w[j := 1] else w
  }

  function MarkNames(dicts: seq<Dict>, w: seq<int>, names: seq<string>): (w': seq<int>)
    requires |w| == |dicts|
    ensures |w'| == |w|
  {
    if names == [] then w else MarkName(dicts, MarkNames(dicts, w, names[..|names| - 1]), names[|names| - 1])
  }

  /** A marked module is processed: its libraries are marked, and it counts as done. */
  function VisitModule(dicts: seq<Dict>, w: seq<int>, i: nat): (w': seq<int>)
    requires |w| == |dicts| && i < |w|
    ensures |w'| == |w|
  {
    if w[i] == 1 then MarkNames(dicts, w, Libraries(dicts[i]))[i := 2] else w
  }

  /** The marks once a sweep has visited the first n modules. */
  function SweepTo(dicts: seq<Dict>, w: seq<int>, n: nat): (w': seq<int>)
    requires |w| == |dicts| && n <= |w|
    ensures |w'| == |w|
  {
    if n == 0 then w else VisitModule(dicts, SweepTo(dicts, w, n - 1), n - 1)
  }

  lemma {:induction false} MarkNamesKeeps(dicts: seq<Dict>, w: seq<int>, names: seq<string>, i: nat)
    requires |w| == |dicts| && i < |w| && 0 <= w[i] <= 2
    ensures var w' := MarkNames(dicts, w, names); if w[i] == 0 then 0 <= w'[i] <= 1 else w'[i] == w[i]
    decreases |names|
  {
    if names != [] {
      MarkNamesKeeps(dicts, w, names[..|names| - 1], i);
    }
  }

  /** A module that is marked when the sweep comes to it is processed at the end; so is every
      module that was marked before the sweep. */
  lemma {:induction false} SweepProcesses(dicts: seq<Dict>, w: seq<int>, i: nat, n: nat)
    requires |w| == |dicts| && i < n <= |w| && forall k :: 0 <= k < |w| ==> 0 <= w[k] <= 2
    ensures forall k :: 0 <= k < |w| ==> 0 <= SweepTo(dicts, w, i)[k] <= 2
    ensures SweepTo(dicts, w, i)[i] != 0 ==> SweepTo(dicts, w, n)[i] == 2
    ensures w[i] != 0 ==> SweepTo(dicts, w, i)[i] != 0
  {
    SweepBounds(dicts, w, i);
    SweepKeeps(dicts, w, 0, i, i);
    SweepBounds(dicts, w, i + 1);
    SweepKeeps(dicts, w, i + 1, n, i);
  }

  lemma {:induction false} SweepBounds(dicts: seq<Dict>, w: seq<int>, n: nat)
    requires |w| == |dicts| && n <= |w| && forall k :: 0 <= k < |w| ==> 0 <= w[k] <= 2
    ensures forall k :: 0 <= k < |w| ==> 0 <= SweepTo(dicts, w, n)[k] <= 2
  {
    if n > 0 {
      SweepBounds(dicts, w, n - 1);
      var v := SweepTo(dicts, w, n - 1);
      forall k | 0 <= k < |w| ensures 0 <= SweepTo(dicts, w, n)[k] <= 2 {
        MarkNamesKeeps(dicts, v, Libraries(dicts[n - 1]), k);
      }
    }
  }

  /** Marks are never taken back. */
  lemma {:induction false} SweepKeeps(dicts: seq<Dict>, w: seq<int>, m: nat, n: nat, i: nat)
    requires |w| == |dicts| && m <= n <= |w| && i < |w| && forall k :: 0 <= k < |w| ==> 0 <= w[k] <= 2
    ensures SweepTo(dicts, w, m)[i] != 0 ==> SweepTo(dicts, w, n)[i] != 0
    ensures SweepTo(dicts, w, m)[i] == 2 ==> SweepTo(dicts, w, n)[i] == 2
    decreases n
  {
    if m < n {
      SweepKeeps(dicts, w, m, n - 1, i);
      SweepBounds(dicts, w, n - 1);
      MarkNamesKeeps(dicts, SweepTo(dicts, w, n - 1), Libraries(dicts[n - 1]), i);
    }
  }

  class ModuleList {
    const dicts: seq<Dict>
    /** willLoad of each module: 0 no, 1 marked, 2 marked and its libraries too. */
    const willLoad: array<int>

    ghost predicate Valid()
      reads this, willLoad
    {
      willLoad.Length == |dicts| && forall i :: 0 <= i < willLoad.Length ==> 0 <= willLoad[i] <= 2
    }

    ghost function Marked(): set<nat>
      reads willLoad
    {
      set i: nat | i < willLoad.Length && willLoad[i] != 0
    }

    constructor (dicts: seq<Dict>, marked: set<nat>)
      ensures Valid() && this.dicts == dicts && fresh(willLoad)
      ensures Marked() == set i: nat | i < |dicts| && i in marked
      ensures forall i :: 0 <= i < willLoad.Length ==> willLoad[i] != 2
    {
      this.dicts := dicts;
      willLoad := new int[|dicts|](i => if i in marked then 1 else 0);
    }

    /** The marks after some of the sweeps: every processed module's libraries are marked, and
        nothing was marked that the closure does not contain. */
    ghost predicate Progress(start: set<nat>)
      requires Valid()
      reads this, willLoad
    {
      && start <= Marked()
      && (forall i, j :: 0 <= i < |dicts| && willLoad[i] == 2 && Needs(dicts, i, j) ==> j in Marked())
      && (forall t :: start <= t && Closed(dicts, t) ==> Marked() <= t)
    }

    /** The number of modules not processed yet. */
    ghost function Pending(): nat
      reads willLoad
    {
      PendingFrom(willLoad[..])
    }

    /** The inner loop for one library name: marks the first module with that identifier. */
    method MarkLibrary(i: int, name: string, ghost start: set<nat>)
      requires Valid() && 0 <= i < |dicts| && willLoad[i] == 1 && Progress(start)
      requires name in Libraries(dicts[i])
      modifies willLoad
      ensures Valid() && Progress(start) && willLoad[i] == 1
      ensures MarksAdded(old(willLoad[..]), willLoad[..])
      ensures FindModule(dicts, name) < |dicts| ==> FindModule(dicts, name) in Marked()
      ensures willLoad[..] == MarkName(dicts, old(willLoad[..]), name)
    {
      hide Needs;
      var j := 0;
      while j < |dicts| && dicts[j].identifier != Some(name)
        invariant 0 <= j <= FindModule(dicts, name)
      {
        j := j + 1;
      }
      if j < |dicts| {
        NeedsNamed(dicts, i, name);
        if willLoad[j] == 0 {
          MarkOne(i, j, start);
        }
      }
    }

    /** The loop over the library names of module i. */
    method MarkLibraries(i: int, ghost start: set<nat>)
      requires Valid() && 0 <= i < |dicts| && willLoad[i] == 1 && Progress(start)
      modifies willLoad
      ensures Valid() && Progress(start) && willLoad[i] == 1
      ensures MarksAdded(old(willLoad[..]), willLoad[..])
      ensures forall j :: Needs(dicts, i, j) ==> j in Marked()
      ensures willLoad[..] == MarkNames(dicts, old(willLoad[..]), Libraries(dicts[i]))
    {
      hide Needs, Progress, MarkName;
      var libs := Libraries(dicts[i]);
      var n := 0;
      while n < |libs|
        invariant 0 <= n <= |libs|
        invariant Valid() && Progress(start) && willLoad[i] == 1
        invariant MarksAdded(old(willLoad[..]), willLoad[..])
        invariant willLoad[..] == MarkNames(dicts, old(willLoad[..]), libs[..n])
        invariant forall m :: 0 <= m < n && FindModule(dicts, libs[m]) < |dicts| ==> FindModule(dicts, libs[m]) in Marked()
      {
        ghost var before := Marked();
        MarkLibrary(i, libs[n], start);
        assert before <= Marked();
        assert libs[..n + 1][..n] == libs[..n];
        n := n + 1;
      }
      assert libs[..n] == libs;
      forall j | Needs(dicts, i, j) ensures j in Marked() {
        var m := NeedsIndex(dicts, i, j);
      }
    }

    method MarkOne(i: int, j: int, ghost start: set<nat>)
      requires Valid() && 0 <= i < |dicts| && 0 <= j < |dicts| && willLoad[i] == 1 && willLoad[j] == 0
      requires Needs(dicts, i, j) && Progress(start)
      modifies willLoad
      ensures Valid() && Progress(start) && willLoad[j] == 1 && Marked() == old(Marked()) + {j}
      ensures forall k :: 0 <= k < |dicts| && k != j ==> willLoad[k] == old(willLoad[k])
    {
      hide Needs;
      ghost var before := Marked();
      assert i in before;
      willLoad[j] := 1;
      assert Marked() == before + {j};
    }

    /** MatchLibraries: exactly the least set is marked that contains the modules marked before and
        every library found of a module in it. */
    method MatchLibraries()
      requires Valid() && forall i :: 0 <= i < willLoad.Length ==> willLoad[i] != 2
      modifies willLoad
      ensures Valid() && IsClosure(dicts, old(Marked()), Marked())
      ensures forall i :: 0 <= i < willLoad.Length ==> willLoad[i] != 1
    {
      hide Needs, Closed;
      ghost var start := Marked();
      var done := false;
      while !done
        invariant Valid() && Progress(start)
        invariant done ==> forall i :: 0 <= i < |dicts| ==> willLoad[i] != 1
        decreases Pending(), !done
      {
        done := Sweep(start);
      }
      FinalClosed(start);
    }

    lemma FinalClosed(start: set<nat>)
      requires Valid() && Progress(start) && forall i :: 0 <= i < |dicts| ==> willLoad[i] != 1
      ensures IsClosure(dicts, start, Marked())
    {
      forall i, j | i in Marked() && Needs(dicts, i, j) ensures j in Marked() {
        assert willLoad[i] == 2;
      }
    }

    /** One sweep over the list: done if no marked module was left. */
    method Sweep(ghost start: set<nat>) returns (done: bool)
      requires Valid() && Progress(start)
      modifies willLoad
      ensures Valid() && Progress(start)
      ensures done ==> forall i :: 0 <= i < |dicts| ==> willLoad[i] != 1
      ensures willLoad[..] == SweepTo(dicts, old(willLoad[..]), |dicts|)
      ensures forall i :: 0 <= i < |dicts| && old(willLoad[i]) != 0 ==> willLoad[i] == 2
      ensures done ==> Pending() == old(Pending())
      ensures !done ==> Pending() < old(Pending())
    {
      hide Needs, Closed, PendingFrom, MarkNames;
      done := true;
      var i := 0;
      ghost var marks := willLoad[..];
      while i < |dicts|
        invariant 0 <= i <= |dicts|
        invariant Valid() && Progress(start)
        invariant done ==> willLoad[..] == old(willLoad[..]) && forall k :: 0 <= k < i ==> willLoad[k] != 1
        invariant !done ==> Pending() < old(Pending())
        invariant willLoad[..] == SweepTo(dicts, marks, i)
      {
        if willLoad[i] == 1 {
          ghost var before := willLoad[..];
          MarkLibraries(i, start);
          Process(i, start);
          PendingLess(before, willLoad[..], i);
          done := false;
          assert willLoad[..] == MarkNames(dicts, before, Libraries(dicts[i]))[i := 2];
        }
        i := i + 1;
      }
      forall k | 0 <= k < |dicts| && marks[k] != 0 ensures willLoad[k] == 2 {
        SweepProcesses(dicts, marks, k, |dicts|);
      }
    }

    method Process(i: int, ghost start: set<nat>)
      requires Valid() && 0 <= i < |dicts| && willLoad[i] == 1 && Progress(start)
      requires forall j :: Needs(dicts, i, j) ==> j in Marked()
      modifies willLoad
      ensures Valid() && Progress(start) && willLoad[i] == 2
      ensures forall k :: 0 <= k < |dicts| && k != i ==> willLoad[k] == old(willLoad[k])
    {
      hide Needs;
      ghost var before := Marked();
      willLoad[i] := 2;
      assert Marked() == before;
    }
  }

  ghost function PendingFrom(w: seq<int>): nat {
    if w == [] then 0 else (if w[0] != 2 then 1 else 0) + PendingFrom(w[1..])
  }

  /** Processing module i takes it off the pending ones; the others stay pending or not. */
  lemma {:induction false} PendingLess(w: seq<int>, w': seq<int>, i: nat)
    requires |w| == |w'| && i <= |w|
    requires i < |w| ==> w[i] != 2 && w'[i] == 2
    requires forall k :: 0 <= k < |w| && k != i ==> (w[k] == 2 <==> w'[k] == 2)
    ensures PendingFrom(w') == PendingFrom(w) - if i < |w| then 1 else 0
    decreases |w|
  {
    if w != [] {
      PendingLess(w[1..], w'[1..], if i == 0 then |w| - 1 else i - 1);
    }
  }
}
