/** The startup check that refuses to run Shenandoah when a barrier that the
    selected GC mode relies on has been switched off.

    The requirement table and the pass/fail rule are the ones pinned down by
    test/gc/shenandoah/options/TestWrongBarrierDisable.java: the default
    (SATB) mode under every heuristic needs LoadRef, SATB, CAS and Clone; the
    incremental-update ("iu") mode needs LoadRef, StoreValEnqueue, CAS and
    Clone; the passive mode needs none of them. */
module BarrierRequirements {

  datatype Option<T> = None | Some(value: T)

  /** The barrier kinds that can be switched off with -XX:-<flag>. */
  datatype Barrier = LoadRef | Satb | StoreValEnqueue | Cas | Clone

  /** The pacing policy of the default mode (-XX:ShenandoahGCHeuristics=...). */
  datatype Heuristic = Adaptive | Static | Compact | Aggressive

  /** The GC mode (-XX:ShenandoahGCMode=...); only the default, concurrent
      SATB mode takes a heuristic. */
  datatype Mode = Concurrent(heuristic: Heuristic) | IncrementalUpdate | Passive

  /** Outcome of the check: Pass, or Fail with the missing barriers in table order. */
  datatype Verdict = Pass | Fail(missing: seq<Barrier>)

  /** What the launched VM shows the test: its exit value and its output lines. */
  datatype Outcome = Outcome(exitValue: int, output: seq<string>)

  // ---------------------------------------------------------------------------
  // Flag names

  /** The VM flag that enables or disables barrier `b`: "Shenandoah", the
      barrier's own name, then "Barrier" (distinct flags: FlagNameRoundTrip). */
  function FlagName(b: Barrier): (name: string)
    ensures |name| > 17 && "Shenandoah" <= name && name[|name| - 7..] == "Barrier"
  {
    match b
    case LoadRef => "ShenandoahLoadRefBarrier"
    case Satb => "ShenandoahSATBBarrier"
    case StoreValEnqueue => "ShenandoahStoreValEnqueueBarrier"
    case Cas => "ShenandoahCASBarrier"
    case Clone => "ShenandoahCloneBarrier"
  }

  /** Resolves a flag name to the barrier it controls, if it names one. */
  function ParseFlag(name: string): (r: Option<Barrier>)
    ensures r.Some? ==> FlagName(r.value) == name
    ensures r.None? ==> forall b: Barrier :: FlagName(b) != name
  {
    if name == FlagName(LoadRef) then Some(LoadRef)
    else if name == FlagName(Satb) then Some(Satb)
    else if name == FlagName(StoreValEnqueue) then Some(StoreValEnqueue)
    else if name == FlagName(Cas) then Some(Cas)
    else if name == FlagName(Clone) then Some(Clone)
    else None
  }

  /** Distinct barriers have distinct flags, so every flag name parses back. */
  lemma FlagNameRoundTrip(b: Barrier)
    ensures ParseFlag(FlagName(b)) == Some(b)
  {
  }

  // ---------------------------------------------------------------------------
  // The requirement table

  /** The test's `concurrent` list, as flag names. */
  const ConcurrentTable: seq<string> := [
    "ShenandoahLoadRefBarrier",
    "ShenandoahSATBBarrier",
    "ShenandoahCASBarrier",
    "ShenandoahCloneBarrier"
  ]

  /** The test's `iu` list, as flag names. */
  const IuTable: seq<string> := [
    "ShenandoahLoadRefBarrier",
    "ShenandoahStoreValEnqueueBarrier",
    "ShenandoahCASBarrier",
    "ShenandoahCloneBarrier"
  ]

  /** The barriers `mode` needs, in table order. */
  function RequiredList(mode: Mode): (list: seq<Barrier>)
    ensures Distinct(list)
    ensures list == [] <==> mode.Passive?
  {
    match mode
    case Concurrent(_) => [LoadRef, Satb, Cas, Clone]
    case IncrementalUpdate => [LoadRef, StoreValEnqueue, Cas, Clone]
    case Passive => []
  }

  /** The set of barriers `mode` needs: empty exactly for the passive mode. */
  function Required(mode: Mode): (r: set<Barrier>)
    ensures forall b :: b in r <==> b in RequiredList(mode)
    ensures r == {} <==> mode.Passive?
  {
    var r := set b | b in RequiredList(mode);
    assert mode.Concurrent? || mode.IncrementalUpdate? ==> LoadRef in r;
    r
  }

  /** The flag-name tables of the test resolve, element by element and in
      order, to the barriers of RequiredList. */
  lemma TablesMatchRequiredList(h: Heuristic)
    ensures |ConcurrentTable| == |RequiredList(Concurrent(h))|
    ensures forall i :: 0 <= i < |ConcurrentTable| ==>
              ParseFlag(ConcurrentTable[i]) == Some(RequiredList(Concurrent(h))[i])
    ensures |IuTable| == |RequiredList(IncrementalUpdate)|
    ensures forall i :: 0 <= i < |IuTable| ==>
              ParseFlag(IuTable[i]) == Some(RequiredList(IncrementalUpdate)[i])
  {
  }

  // ---------------------------------------------------------------------------
  // The validator

  /** The elements of `list` that are in `disabled`, in the order of `list`. */
  function Missing(list: seq<Barrier>, disabled: set<Barrier>): (r: seq<Barrier>)
    ensures forall b :: b in r <==> b in list && b in disabled
    ensures |r| <= |list|
  {
    if list == [] then []
    else if list[0] in disabled then [list[0]] + Missing(list[1..], disabled)
    else Missing(list[1..], disabled)
  }

  /** No barrier occurs twice in `s`. */
  predicate Distinct(s: seq<Barrier>)
  {
    forall i, j | 0 <= i < j < |s| :: s[i] != s[j]
  }

  /** The position of the first `b` in `list`. */
  function IndexOf(list: seq<Barrier>, b: Barrier): (k: nat)
    requires b in list
    ensures k < |list| && list[k] == b
    ensures forall k' | 0 <= k' < k :: list[k'] != b
  {
    if list[0] == b then 0 else 1 + IndexOf(list[1..], b)
  }

  /** Every element of `r` occurs in `list`, and `r` lists them in strictly
      increasing positions of `list`: the order of `list`, with no repetition. */
  predicate InOrderOf(r: seq<Barrier>, list: seq<Barrier>)
  {
    (forall i | 0 <= i < |r| :: r[i] in list) &&
    forall i, j | 0 <= i < j < |r| :: IndexOf(list, r[i]) < IndexOf(list, r[j])
  }

  /** Filtering a list without repetitions keeps the list's order. */
  lemma {:induction false} MissingInOrder(list: seq<Barrier>, disabled: set<Barrier>)
    requires Distinct(list)
    ensures InOrderOf(Missing(list, disabled), list)
  {
    if list != [] {
      DistinctTail(list);
      MissingInOrder(list[1..], disabled);
      var rest := Missing(list[1..], disabled);
      if list[0] in disabled {
        assert Missing(list, disabled) == [list[0]] + rest;
        InOrderCons(rest, list);
      } else {
        assert Missing(list, disabled) == rest;
        InOrderShift(rest, list);
      }
    }
  }

  /** The tail of a list without repetitions has none and lacks the head. */
  lemma DistinctTail(list: seq<Barrier>)
    requires Distinct(list) && list != []
    ensures Distinct(list[1..]) && list[0] !in list[1..]
  {
    var tail := list[1..];
    forall i, j | 0 <= i < j < |tail| ensures tail[i] != tail[j] {
      assert tail[i] == list[i + 1] && tail[j] == list[j + 1];
    }
    forall j | 0 <= j < |tail| ensures tail[j] != list[0] {
      assert tail[j] == list[j + 1];
    }
  }

  /** Past the head, a position in `list` is one more than in its tail. */
  lemma IndexOfTail(list: seq<Barrier>, b: Barrier)
    requires list != [] && b in list[1..] && b != list[0]
    ensures IndexOf(list, b) == 1 + IndexOf(list[1..], b)
  {
  }

  /** Being in the order of a list's tail, avoiding its head, means being in
      the order of the list. */
  lemma InOrderShift(r: seq<Barrier>, list: seq<Barrier>)
    requires list != [] && InOrderOf(r, list[1..]) && list[0] !in r
    ensures InOrderOf(r, list)
  {
    forall i | 0 <= i < |r| ensures r[i] in list && IndexOf(list, r[i]) == 1 + IndexOf(list[1..], r[i]) {
      assert r[i] in r;
      IndexOfTail(list, r[i]);
    }
  }

  /** The head of a list without repetitions, put before a sequence in the
      order of its tail, keeps the order of the list. */
  lemma InOrderCons(r: seq<Barrier>, list: seq<Barrier>)
    requires list != [] && InOrderOf(r, list[1..]) && list[0] !in list[1..]
    ensures InOrderOf([list[0]] + r, list)
  {
    var s := [list[0]] + r;
    forall i | 0 <= i < |r| ensures r[i] in list && IndexOf(list, r[i]) == 1 + IndexOf(list[1..], r[i]) {
      IndexOfTail(list, r[i]);
    }
    forall i | 0 < i < |s| ensures s[i] == r[i - 1] {
    }
    assert IndexOf(list, s[0]) == 0;
  }

  /** The startup decision: Fail exactly when some required barrier is
      disabled, naming exactly the required barriers that are disabled. */
  function Validate(mode: Mode, disabled: set<Barrier>): (v: Verdict)
    ensures v.Pass? <==> Required(mode) * disabled == {}
    ensures v.Fail? ==> (v.missing != [] &&
              forall b :: b in v.missing <==> b in Required(mode) && b in disabled)
    ensures v.Fail? ==> InOrderOf(v.missing, RequiredList(mode))
  {
    var missing := Missing(RequiredList(mode), disabled);
    assert Distinct(RequiredList(mode));
    MissingInOrder(RequiredList(mode), disabled);
    if missing == [] then
      assert forall b :: b in Required(mode) * disabled ==> b in missing;
      Pass
    else
      assert missing[0] in Required(mode) * disabled;
      Fail(missing)
  }

  /** The process exit value that follows a verdict. */
  function ExitStatus(v: Verdict): (code: int)
    ensures code == 0 <==> v.Pass?
    ensures code == 1 <==> v.Fail?
  {
    if v.Pass? then 0 else 1
  }

  // ---------------------------------------------------------------------------
  // Diagnostics

  /** `t` occurs somewhere in `s`. */
  predicate Contains(s: string, t: string)
  {
    exists k | 0 <= k <= |s| :: t <= s[k..]
  }

  /** `t` occurs in some line of `out`. */
  predicate OutputContains(out: seq<string>, t: string)
  {
    exists line | line in out :: Contains(line, t)
  }

  const NeedsPrefix: string := "GC mode needs "
  const NeedsSuffix: string := "to work correctly"

  /** The diagnostic for one missing barrier. */
  function Message(b: Barrier): (m: string)
    ensures NeedsPrefix + FlagName(b) <= m
    ensures Contains(m, NeedsPrefix) && Contains(m, NeedsSuffix)
  {
    var m := NeedsPrefix + FlagName(b) + " " + NeedsSuffix;
    assert NeedsPrefix <= m[0..];
    var k := |NeedsPrefix + FlagName(b) + " "|;
    assert m[k..] == NeedsSuffix;
    m
  }

  /** One diagnostic line per missing barrier, none on Pass. */
  function Diagnostics(v: Verdict): (lines: seq<string>)
    ensures v.Pass? ==> lines == []
    ensures v.Fail? ==> (|lines| == |v.missing| &&
              forall i :: 0 <= i < |lines| ==> NeedsPrefix + FlagName(v.missing[i]) <= lines[i])
    ensures forall i | 0 <= i < |lines| ::
              Contains(lines[i], NeedsPrefix) && Contains(lines[i], NeedsSuffix)
  {
    if v.Pass? then [] else seq(|v.missing|, i requires 0 <= i < |v.missing| => Message(v.missing[i]))
  }

  /** Every line printed on Fail carries both phrases the test looks for,
      so the output as a whole does too. */
  lemma DiagnosticsCarryPhrases(v: Verdict)
    requires v.Fail? && v.missing != []
    ensures forall i | 0 <= i < |Diagnostics(v)| ::
              Contains(Diagnostics(v)[i], NeedsPrefix) && Contains(Diagnostics(v)[i], NeedsSuffix)
    ensures OutputContains(Diagnostics(v), NeedsPrefix)
    ensures OutputContains(Diagnostics(v), NeedsSuffix)
  {
    var line := Diagnostics(v)[0];
    assert line == Message(v.missing[0]);
    assert line in Diagnostics(v);
  }

  // ---------------------------------------------------------------------------
  // The test's scenarios

  /** Starting the VM in `mode` with `-XX:-<flag>`: None when `flag` names no
      barrier (that case is not part of this model). */
  function LaunchWithout(mode: Mode, flag: string): (r: Option<Outcome>)
    ensures r.Some? <==> ParseFlag(flag).Some?
    ensures r.Some? ==> (r.value.exitValue == 1 <==> ParseFlag(flag).value in Required(mode))
    ensures r.Some? ==> (r.value.exitValue == 0 <==> ParseFlag(flag).value !in Required(mode))
  {
    match ParseFlag(flag)
    case None => None
    case Some(b) =>
      var v := Validate(mode, {b});
      Some(Outcome(ExitStatus(v), Diagnostics(v)))
  }

  /** `shouldFailAll`: every flag of `table`, disabled alone, makes the VM
      exit with 1 and print both phrases. */
  predicate ShouldFailAll(mode: Mode, table: seq<string>)
  {
    forall i | 0 <= i < |table| ::
      LaunchWithout(mode, table[i]).Some? &&
      LaunchWithout(mode, table[i]).value.exitValue == 1 &&
      OutputContains(LaunchWithout(mode, table[i]).value.output, NeedsPrefix) &&
      OutputContains(LaunchWithout(mode, table[i]).value.output, NeedsSuffix)
  }

  /** `shouldPassAll`: every flag of `table`, disabled alone, lets the VM exit with 0. */
  predicate ShouldPassAll(mode: Mode, table: seq<string>)
  {
    forall i | 0 <= i < |table| ::
      LaunchWithout(mode, table[i]).Some? &&
      LaunchWithout(mode, table[i]).value.exitValue == 0
  }

  /** Disabling a single barrier fails exactly when the mode requires it, and
      the failure names that barrier alone. */
  lemma SingleDisabled(mode: Mode, b: Barrier)
    ensures Validate(mode, {b}) == if b in Required(mode) then Fail([b]) else Pass
  {
    MissingOfSingle(RequiredList(mode), b);
  }

  /** In a list without repetitions, disabling `b` alone leaves [b] missing
      when the list holds `b`, and nothing otherwise. */
  lemma {:induction false} MissingOfSingle(list: seq<Barrier>, b: Barrier)
    requires Distinct(list)
    ensures Missing(list, {b}) == if b in list then [b] else []
  {
    if list != [] {
      DistinctTail(list);
      assert list == [list[0]] + list[1..];
      MissingOfSingle(list[1..], b);
    }
  }

  /** The default mode refuses each barrier of the `concurrent` list, under
      every heuristic (the four shouldFailAll calls on it). */
  lemma DefaultModeFailsAll(h: Heuristic)
    ensures ShouldFailAll(Concurrent(h), ConcurrentTable)
  {
    FailAllFromTable(Concurrent(h), ConcurrentTable);
  }

  /** The iu mode refuses each barrier of the `iu` list. */
  lemma IuModeFailsAll()
    ensures ShouldFailAll(IncrementalUpdate, IuTable)
  {
    FailAllFromTable(IncrementalUpdate, IuTable);
  }

  /** The passive mode accepts each barrier of either list being disabled. */
  lemma PassiveModePassesAll()
    ensures ShouldPassAll(Passive, ConcurrentTable)
    ensures ShouldPassAll(Passive, IuTable)
  {
  }

  /** Shared step of the two lemmas above: when the table's flags are the
      mode's required barriers, disabling any one of them alone fails with
      exit value 1 and both phrases printed. */
  lemma FailAllFromTable(mode: Mode, table: seq<string>)
    requires mode == IncrementalUpdate ==> table == IuTable
    requires mode.Concurrent? ==> table == ConcurrentTable
    requires !mode.Passive?
    ensures ShouldFailAll(mode, table)
  {
    TablesMatchRequiredList(if mode.Concurrent? then mode.heuristic else Adaptive);
    forall i | 0 <= i < |table|
      ensures LaunchWithout(mode, table[i]).Some?
      ensures LaunchWithout(mode, table[i]).value.exitValue == 1
      ensures OutputContains(LaunchWithout(mode, table[i]).value.output, NeedsPrefix)
      ensures OutputContains(LaunchWithout(mode, table[i]).value.output, NeedsSuffix)
    {
      var b := RequiredList(mode)[i];
      assert ParseFlag(table[i]) == Some(b);
      SingleDisabled(mode, b);
      DiagnosticsCarryPhrases(Validate(mode, {b}));
    }
  }

  /** Every expectation in the test's `main`, in order. */
  lemma WrongBarrierDisableScenarios()
    ensures ShouldFailAll(Concurrent(Adaptive), ConcurrentTable)
    ensures ShouldFailAll(Concurrent(Static), ConcurrentTable)
    ensures ShouldFailAll(Concurrent(Compact), ConcurrentTable)
    ensures ShouldFailAll(Concurrent(Aggressive), ConcurrentTable)
    ensures ShouldFailAll(IncrementalUpdate, IuTable)
    ensures ShouldPassAll(Passive, ConcurrentTable)
    ensures ShouldPassAll(Passive, IuTable)
  {
    DefaultModeFailsAll(Adaptive);
    DefaultModeFailsAll(Static);
    DefaultModeFailsAll(Compact);
    DefaultModeFailsAll(Aggressive);
    IuModeFailsAll();
    PassiveModePassesAll();
  }

  // ---------------------------------------------------------------------------
  // Properties of the table

  /** The heuristic never changes the verdict of the default mode. */
  lemma HeuristicIrrelevant(h1: Heuristic, h2: Heuristic, disabled: set<Barrier>)
    ensures Validate(Concurrent(h1), disabled) == Validate(Concurrent(h2), disabled)
  {
  }

  /** Passive needs nothing: any set of disabled barriers passes. */
  lemma PassiveAlwaysPasses(disabled: set<Barrier>)
    ensures Validate(Passive, disabled) == Pass
  {
  }

  /** The default mode requires exactly LoadRef, SATB, CAS and Clone, and iu
      exactly LoadRef, StoreValEnqueue, CAS and Clone: the two tables share
      LoadRef, CAS and Clone and differ only in SATB versus StoreValEnqueue. */
  lemma TablesShareAndDiffer(h: Heuristic)
    ensures Required(Concurrent(h)) == {LoadRef, Satb, Cas, Clone}
    ensures Required(IncrementalUpdate) == {LoadRef, StoreValEnqueue, Cas, Clone}
    ensures Required(Concurrent(h)) * Required(IncrementalUpdate) == {LoadRef, Cas, Clone}
    ensures Required(Concurrent(h)) - Required(IncrementalUpdate) == {Satb}
    ensures Required(IncrementalUpdate) - Required(Concurrent(h)) == {StoreValEnqueue}
  {
  }
}
