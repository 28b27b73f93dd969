/** The table of destructors that the C++ runtime support keeps, and the calls it makes from it. */
module Destructors {
  import opened Sequences

  const MAX_FUNCS: nat := 128

  /** A registration; function 0 is the null pointer. */
  datatype Entry = Entry(func: nat, obj: nat, dso: nat)

  datatype Call = Call(func: nat, obj: nat)

  /** `__cxa_finalize(f)` calls the entries of function `f`, and all entries that still have a function when `f` is null. */
  predicate Selected(e: Entry, f: nat) {
    if f == 0 then e.func != 0 else e.func == f
  }

  /** The calls of the selected entries in order of registration. */
  function InOrder(slots: seq<Entry>, f: nat): seq<Call> {
    if slots == [] then [] else CallOf(slots[0], f) + InOrder(slots[1..], f)
  }

  function CallOf(e: Entry, f: nat): seq<Call> {
    if Selected(e, f) then [Call(e.func, e.obj)] else []
  }

  /** A selected entry is unset once it has been called by function; a final sweep leaves the table alone. */
  function Unset(e: Entry, f: nat): Entry {
    if f != 0 && e.func == f then e.(func := 0) else e
  }

  function UnsetAll(slots: seq<Entry>, f: nat): (r: seq<Entry>)
    ensures |r| == |slots|
  {
    seq(|slots|, i requires 0 <= i < |slots| => Unset(slots[i], f))
  }

  datatype Table = Table(slots: seq<Entry>, calls: seq<Call>) {

    function Register(e: Entry): Table {
      if |slots| >= MAX_FUNCS then this else this.(slots := slots + [e])
    }

    /** Selected entries are called last registered first. */
    function Finalize(f: nat): Table {
      Table(UnsetAll(slots, f), calls + Reverse(InOrder(slots, f)))
    }
  }

  /** The table takes 128 registrations and refuses every further one. */
  lemma RegisterIff(t: Table, e: Entry)
    ensures if |t.slots| < 128 then t.Register(e) == Table(t.slots + [e], t.calls) else t.Register(e) == t
  {
  }

  /** How many of the slots a sweep selects. */
  function Count(slots: seq<Entry>, f: nat): nat {
    if slots == [] then 0 else (if Selected(slots[0], f) then 1 else 0) + Count(slots[1..], f)
  }

  lemma {:induction false} InOrderLength(slots: seq<Entry>, f: nat)
    ensures |InOrder(slots, f)| == Count(slots, f)
  {
    if slots != [] {
      InOrderLength(slots[1..], f);
    }
  }

  /** A sweep makes one call for each slot of the function, or for each slot that has one, and that of slot `i` comes right after
      those of the later slots. */
  lemma SweepOrder(t: Table, f: nat, i: nat)
    requires i < |t.slots| && (if f == 0 then t.slots[i].func != 0 else t.slots[i].func == f)
    ensures var made := t.Finalize(f).calls[|t.calls|..]; var later := Count(t.slots[i + 1..], f);
      && t.calls <= t.Finalize(f).calls && |made| == Count(t.slots, f)
      && later < |made| && made[later] == Call(t.slots[i].func, t.slots[i].obj)
  {
    var e := t.slots[i];
    var before, after := InOrder(t.slots[..i], f), InOrder(t.slots[i + 1..], f);
    InOrderLength(t.slots, f);
    InOrderLength(t.slots[i + 1..], f);
    assert t.slots == t.slots[..i] + ([e] + t.slots[i + 1..]);
    InOrderSplit(t.slots[..i], [e] + t.slots[i + 1..], f);
    assert ([e] + t.slots[i + 1..])[1..] == t.slots[i + 1..];
    assert InOrder(t.slots, f) == before + ([Call(e.func, e.obj)] + after);
    var all := InOrder(t.slots, f);
    assert t.Finalize(f).calls[|t.calls|..] == Reverse(all);
    assert all[|all| - 1 - |after|] == Call(e.func, e.obj);
  }

  lemma {:induction false} InOrderSplit(a: seq<Entry>, b: seq<Entry>, f: nat)
    ensures InOrder(a + b, f) == InOrder(a, f) + InOrder(b, f)
  {
    if a == [] {
      assert a + b == b;
    } else {
      assert (a + b)[1..] == a[1..] + b;
      InOrderSplit(a[1..], b, f);
    }
  }

  lemma InOrderLast(slots: seq<Entry>, e: Entry, f: nat)
    ensures InOrder(slots + [e], f) == InOrder(slots, f) + CallOf(e, f)
  {
    InOrderSplit(slots, [e], f);
    assert [e][1..] == [];
  }

  datatype Event = Registered(e: Entry) | Finalized(f: nat)

  function Run(t: Table, es: seq<Event>): Table {
    if es == [] then t
    else
      var u := Run(t, es[..|es| - 1]);
      match es[|es| - 1]
      case Registered(e) => u.Register(e)
      case Finalized(f) => u.Finalize(f)
  }

  /** The calls owed for the registrations of a run: those taken in while the table had room, of functions that are not null. */
  function Accepted(es: seq<Event>): seq<Call> {
    if es == [] then []
    else
      var rest := es[..|es| - 1];
      match es[|es| - 1]
      case Registered(e) =>
        if |Run(Table([], []), rest).slots| < MAX_FUNCS && e.func != 0 then Accepted(rest) + [Call(e.func, e.obj)]
        else Accepted(rest)
      case Finalized(_) => Accepted(rest)
  }

  /** Unsetting moves the called entries, and nothing else, out of what is still to be called. */
  lemma {:induction false} UnsetMovesCalls(slots: seq<Entry>, f: nat)
    requires f != 0
    ensures multiset(InOrder(UnsetAll(slots, f), 0)) + multiset(InOrder(slots, f)) == multiset(InOrder(slots, 0))
  {
    if slots != [] {
      var e, rest := slots[0], slots[1..];
      UnsetMovesCalls(rest, f);
      UnsetFirst(slots, f);
      UnsetMovesCall(e, f);
      SumsMeet(CallOf(Unset(e, f), 0), CallOf(e, f), CallOf(e, 0),
               InOrder(UnsetAll(rest, f), 0), InOrder(rest, f), InOrder(rest, 0));
    }
  }

  lemma UnsetFirst(slots: seq<Entry>, f: nat)
    requires slots != []
    ensures InOrder(UnsetAll(slots, f), 0) == CallOf(Unset(slots[0], f), 0) + InOrder(UnsetAll(slots[1..], f), 0)
  {
    assert UnsetAll(slots, f)[1..] == UnsetAll(slots[1..], f);
  }

  lemma UnsetMovesCall(e: Entry, f: nat)
    requires f != 0
    ensures multiset(CallOf(Unset(e, f), 0)) + multiset(CallOf(e, f)) == multiset(CallOf(e, 0))
  {
  }

  lemma SumsMeet(a: seq<Call>, b: seq<Call>, c: seq<Call>, x: seq<Call>, y: seq<Call>, z: seq<Call>)
    requires multiset(a) + multiset(b) == multiset(c) && multiset(x) + multiset(y) == multiset(z)
    ensures multiset(a + x) + multiset(b + y) == multiset(c + z)
  {
  }

  /** What the sweeps of a run called although it stays in the table. */
  function Repeated(es: seq<Event>): seq<Call> {
    if es == [] then []
    else
      var rest := es[..|es| - 1];
      if es[|es| - 1] == Finalized(0) then Repeated(rest) + InOrder(Run(Table([], []), rest).slots, 0) else Repeated(rest)
  }

  /** Calls made and calls to come make up the calls accepted and those repeated. */
  predicate Balanced(t: Table, accepted: seq<Call>, repeated: seq<Call>) {
    multiset(t.calls) + multiset(InOrder(t.slots, 0)) == multiset(accepted) + multiset(repeated)
  }

  lemma RegisterBalances(t: Table, e: Entry, accepted: seq<Call>, repeated: seq<Call>)
    requires Balanced(t, accepted, repeated) && |t.slots| < MAX_FUNCS
    ensures Balanced(t.Register(e), accepted + CallOf(e, 0), repeated)
  {
    InOrderLast(t.slots, e, 0);
    var x, y := InOrder(t.slots, 0), CallOf(e, 0);
    AddToBoth(multiset(t.calls), multiset(x), multiset(accepted), multiset(repeated), multiset(y));
    assert multiset(x + y) == multiset(x) + multiset(y);
    assert multiset(accepted + y) == multiset(accepted) + multiset(y);
  }

  lemma AddToBoth(c: multiset<Call>, x: multiset<Call>, a: multiset<Call>, r: multiset<Call>, y: multiset<Call>)
    requires c + x == a + r
    ensures c + (x + y) == (a + y) + r
  {
    assert c + (x + y) == (c + x) + y;
    assert (a + r) + y == (a + y) + r;
  }

  lemma FinalizeBalances(t: Table, f: nat, accepted: seq<Call>, repeated: seq<Call>)
    requires Balanced(t, accepted, repeated) && f != 0
    ensures Balanced(t.Finalize(f), accepted, repeated)
  {
    ReverseKeeps(InOrder(t.slots, f));
    UnsetMovesCalls(t.slots, f);
    assert multiset(t.Finalize(f).calls) == multiset(t.calls) + multiset(InOrder(t.slots, f));
  }

  lemma SweepBalances(t: Table, accepted: seq<Call>, repeated: seq<Call>)
    requires Balanced(t, accepted, repeated)
    ensures Balanced(t.Finalize(0), accepted, repeated + InOrder(t.slots, 0))
  {
    ReverseKeeps(InOrder(t.slots, 0));
    SweepKeepsSlots(t.slots);
    assert multiset(t.Finalize(0).calls) == multiset(t.calls) + multiset(InOrder(t.slots, 0));
    assert multiset(repeated + InOrder(t.slots, 0)) == multiset(repeated) + multiset(InOrder(t.slots, 0));
  }

  /** Throughout any run, what has been called and what is still to be called is what was accepted, and once more what
      each sweep over everything found. */
  lemma {:induction false} CallsBalance(es: seq<Event>)
    ensures |Run(Table([], []), es).slots| <= MAX_FUNCS
    ensures Balanced(Run(Table([], []), es), Accepted(es), Repeated(es))
  {
    if es != [] {
      var rest := es[..|es| - 1];
      CallsBalance(rest);
      var t := Run(Table([], []), rest);
      match es[|es| - 1]
      case Registered(e) =>
        if |t.slots| < MAX_FUNCS {
          RegisterBalances(t, e, Accepted(rest), Repeated(rest));
          assert Accepted(rest) + [] == Accepted(rest);
        }
      case Finalized(f) =>
        if f == 0 {
          SweepBalances(t, Accepted(rest), Repeated(rest));
        } else {
          FinalizeBalances(t, f, Accepted(rest), Repeated(rest));
        }
    }
  }

  lemma SweepKeepsSlots(slots: seq<Entry>)
    ensures UnsetAll(slots, 0) == slots
  {
  }

  predicate FindsNothing(before: seq<Event>, e: Event) {
    e == Finalized(0) ==> InOrder(Run(Table([], []), before).slots, 0) == []
  }

  /** Each sweep of the run over everything found nothing left to call. */
  ghost predicate SweepsFindNothing(es: seq<Event>) {
    forall i | 0 <= i < |es| :: FindsNothing(es[..i], es[i])
  }

  lemma LastSweep(es: seq<Event>)
    requires es != []
    ensures var n := |es| - 1; SweepsFindNothing(es) <==> SweepsFindNothing(es[..n]) && FindsNothing(es[..n], es[n])
  {
    var n := |es| - 1;
    var rest := es[..n];
    forall i | 0 <= i < n
      ensures FindsNothing(rest[..i], rest[i]) <==> FindsNothing(es[..i], es[i])
    {
      assert rest[..i] == es[..i];
    }
  }

  lemma {:induction false} NothingRepeatedIff(es: seq<Event>)
    ensures Repeated(es) == [] <==> SweepsFindNothing(es)
  {
    if es != [] {
      NothingRepeatedIff(es[..|es| - 1]);
      LastSweep(es);
    }
  }

  /** Any run ended by a sweep calls every accepted registration exactly once, with its own object, exactly when each earlier
      sweep found nothing left to call. */
  lemma EachCalledOnceIff(es: seq<Event>)
    ensures multiset(Run(Table([], []), es).Finalize(0).calls) == multiset(Accepted(es)) <==> SweepsFindNothing(es)
  {
    CallsBalance(es);
    ReverseKeeps(InOrder(Run(Table([], []), es).slots, 0));
    NothingRepeatedIff(es);
    var a, r := multiset(Accepted(es)), multiset(Repeated(es));
    assert |a + r| == |a| + |r|;
    assert |r| == |Repeated(es)|;
  }

  /** In particular it does so without earlier sweeps. */
  lemma EachCalledOnce(es: seq<Event>)
    requires forall i | 0 <= i < |es| :: es[i] != Finalized(0)
    ensures multiset(Run(Table([], []), es).Finalize(0).calls) == multiset(Accepted(es))
  {
    EachCalledOnceIff(es);
  }

  /** The final sweep unsets nothing: a second one makes the same calls again, so it is harmless exactly when nothing was left. */
  lemma SecondSweepRepeats(t: Table)
    ensures t.Finalize(0).Finalize(0).calls == t.Finalize(0).calls + Reverse(InOrder(t.slots, 0))
    ensures t.Finalize(0).Finalize(0).calls == t.Finalize(0).calls <==> InOrder(t.slots, 0) == []
  {
    assert UnsetAll(t.slots, 0) == t.slots;
    var a, b := t.Finalize(0).calls, Reverse(InOrder(t.slots, 0));
    assert |a + b| == |a| + |b|;
  }

  class Runtime {
    const funcs: array<Entry>
    var count: nat
    /** The destructor calls made so far. */
    ghost var calls: seq<Call>

    ghost predicate Valid()
      reads this, funcs
    {
      funcs.Length == MAX_FUNCS && count <= MAX_FUNCS
    }

    ghost function Model(): Table
      requires Valid()
      reads this, funcs
    {
      Table(funcs[..count], calls)
    }

    constructor ()
      ensures Valid() && fresh(funcs) && Model() == Table([], [])
    {
      funcs := new Entry[MAX_FUNCS](_ => Entry(0, 0, 0));
      count := 0;
      calls := [];
    }

    method AtExit(f: nat, obj: nat, dso: nat) returns (result: int)
      requires Valid()
      modifies this, funcs
      ensures Valid() && Model() == old(Model()).Register(Entry(f, obj, dso))
      ensures result == if old(count) >= 128 then -1 else 0
    {
      if count >= MAX_FUNCS {
        return -1;
      }
      funcs[count] := Entry(f, obj, dso);
      count := count + 1;
      return 0;
    }

    /** The sweep over all entries that still have a function. */
    method FinalizeAll()
      requires Valid()
      modifies `calls
      ensures calls == old(calls) + Reverse(InOrder(funcs[..count], 0))
    {
      ghost var slots, made := funcs[..count], calls;
      var i := count;
      while i > 0
        invariant 0 <= i <= count && calls == made + Reverse(InOrder(slots[i..], 0))
      {
        i := i - 1;
        CallNext(slots, i, 0);
        if funcs[i].func != 0 {
          calls := calls + [Call(funcs[i].func, funcs[i].obj)];
        }
      }
      assert slots[0..] == slots;
    }

    /** The sweep that calls and unsets the entries of one function. */
    method FinalizeOne(f: nat)
      requires Valid() && f != 0
      modifies `calls, funcs
      ensures funcs[..count] == UnsetAll(old(funcs[..count]), f)
      ensures calls == old(calls) + Reverse(InOrder(old(funcs[..count]), f))
    {
      ghost var slots, made := funcs[..count], calls;
      var i := count;
      while i > 0
        invariant 0 <= i <= count && calls == made + Reverse(InOrder(slots[i..], f))
        invariant forall k | 0 <= k < i :: funcs[k] == slots[k]
        invariant forall k | i <= k < count :: funcs[k] == Unset(slots[k], f)
      {
        i := i - 1;
        CallNext(slots, i, f);
        if funcs[i].func == f {
          calls := calls + [Call(funcs[i].func, funcs[i].obj)];
          funcs[i] := funcs[i].(func := 0);
        }
      }
      assert slots[0..] == slots;
    }

    /** `__cxa_finalize`; destructors that register or finalize themselves are not modelled. */
    method Finalize(f: nat)
      requires Valid()
      modifies `calls, funcs
      ensures Valid() && Model() == old(Model()).Finalize(f)
    {
      if f == 0 {
        FinalizeAll();
        assert UnsetAll(funcs[..count], 0) == funcs[..count];
      } else {
        FinalizeOne(f);
      }
    }
  }

  /** Going one entry further down adds its call, if any, behind the others. */
  lemma CallNext(slots: seq<Entry>, i: nat, f: nat)
    requires i < |slots|
    ensures Reverse(InOrder(slots[i..], f))
      == Reverse(InOrder(slots[i + 1..], f)) + CallOf(slots[i], f)
  {
    assert slots[i..][1..] == slots[i + 1..];
    var rest := InOrder(slots[i + 1..], f);
    assert (CallOf(slots[i], f) + rest)[|CallOf(slots[i], f)|..] == rest;
    if !Selected(slots[i], f) {
      assert CallOf(slots[i], f) + rest == rest;
    }
  }
}
