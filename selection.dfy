/**
 * The two-stage selector of `lock_items`: `term_generator(item)` returns a
 * term, and calling the term decides whether to claim the item.  Both stages may
 * read and change state the caller owns (a Python closure over a list, say); that
 * state is made explicit here as `S` and threaded through every call in the order
 * the calls happen.
 */
module Selection {
  import opened Records

  datatype Selector<!S, !T> = Selector(generate: (S, Record) -> (S, T), decide: (S, T) -> (S, bool))

  /** First stage: `term_generator` applied to each candidate in turn. */
  function Generate<S, T>(sel: Selector<S, T>, s: S, items: seq<Record>): (r: (S, seq<T>))
    ensures |r.1| == |items|
    decreases |items|
  {
    if items == [] then (s, [])
    else
      var done := Generate(sel, s, items[..|items| - 1]);
      var next := sel.generate(done.0, items[|items| - 1]);
      (next.0, done.1 + [next.1])
  }

  /** Second stage: each term called in turn, giving one decision per term. */
  function Decide<S, T>(sel: Selector<S, T>, s: S, terms: seq<T>): (r: (S, seq<bool>))
    ensures |r.1| == |terms|
    decreases |terms|
  {
    if terms == [] then (s, [])
    else
      var done := Decide(sel, s, terms[..|terms| - 1]);
      var next := sel.decide(done.0, terms[|terms| - 1]);
      (next.0, done.1 + [next.1])
  }

  /** One more term called: the decisions so far are kept and the new one is appended. */
  lemma DecideStep<S, T>(sel: Selector<S, T>, s: S, terms: seq<T>, j: nat)
    requires j < |terms|
    ensures var done := Decide(sel, s, terms[..j]);
            var next := sel.decide(done.0, terms[j]);
            Decide(sel, s, terms[..j + 1]) == (next.0, done.1 + [next.1])
  {
    assert terms[..j + 1][..j] == terms[..j];
  }

  /** Every term is generated before any is called; the result is the selector's
      final state and one decision per candidate. */
  function Select<S, T>(sel: Selector<S, T>, s: S, items: seq<Record>): (r: (S, seq<bool>))
    ensures |r.1| == |items|
  {
    var generated := Generate(sel, s, items);
    Decide(sel, generated.0, generated.1)
  }

  // ---------------------------------------------------------------------------
  // The order of the calls

  datatype Event<T> = Generated(item: Record) | Called(term: T)

  /** `sel` with a log of every call made to either stage appended to its state. */
  function Traced<S, T>(sel: Selector<S, T>): Selector<(S, seq<Event<T>>), T> {
    Selector(
      (st: (S, seq<Event<T>>), x: Record) =>
        var next := sel.generate(st.0, x); ((next.0, st.1 + [Generated(x)]), next.1),
      (st: (S, seq<Event<T>>), t: T) =>
        var next := sel.decide(st.0, t); ((next.0, st.1 + [Called(t)]), next.1))
  }

  function GeneratedLog<T>(items: seq<Record>): seq<Event<T>> {
    seq(|items|, k requires 0 <= k < |items| => Generated(items[k]))
  }

  function CalledLog<T>(terms: seq<T>): seq<Event<T>> {
    seq(|terms|, k requires 0 <= k < |terms| => Called(terms[k]))
  }

  lemma {:induction false} GenerateTraced<S, T>(sel: Selector<S, T>, s: S, log: seq<Event<T>>, items: seq<Record>)
    ensures Generate(Traced(sel), (s, log), items)
         == ((Generate(sel, s, items).0, log + GeneratedLog(items)), Generate(sel, s, items).1)
    decreases |items|
  {
    if items != [] {
      var n := |items| - 1;
      GenerateTraced(sel, s, log, items[..n]);
      assert GeneratedLog<T>(items) == GeneratedLog<T>(items[..n]) + [Generated(items[n])];
      assert log + GeneratedLog<T>(items) == log + GeneratedLog<T>(items[..n]) + [Generated(items[n])];
    } else {
      assert GeneratedLog<T>(items) == [];
      assert log + [] == log;
    }
  }

  lemma {:induction false} DecideTraced<S, T>(sel: Selector<S, T>, s: S, log: seq<Event<T>>, terms: seq<T>)
    ensures Decide(Traced(sel), (s, log), terms)
         == ((Decide(sel, s, terms).0, log + CalledLog(terms)), Decide(sel, s, terms).1)
    decreases |terms|
  {
    if terms != [] {
      var n := |terms| - 1;
      DecideTraced(sel, s, log, terms[..n]);
      assert CalledLog(terms) == CalledLog(terms[..n]) + [Called(terms[n])];
      assert log + CalledLog(terms) == log + CalledLog(terms[..n]) + [Called(terms[n])];
    } else {
      assert CalledLog(terms) == [];
      assert log + [] == log;
    }
  }

  /**
   * Whatever the selector, `term_generator` is applied to every candidate, in
   * order, before the first term is called, and the terms are then called in the
   * same order; watching the calls changes neither the decisions nor the state.
   */
  lemma GeneratorsRunFirst<S, T>(sel: Selector<S, T>, s: S, items: seq<Record>)
    ensures var terms := Generate(sel, s, items).1;
            var traced := Select(Traced(sel), (s, []), items);
            && traced.1 == Select(sel, s, items).1
            && traced.0.0 == Select(sel, s, items).0
            && traced.0.1 == GeneratedLog(items) + CalledLog(terms)
  {
    var generated := Generate(sel, s, items);
    GenerateTraced(sel, s, [], items);
    assert [] + GeneratedLog<T>(items) == GeneratedLog<T>(items);
    DecideTraced(sel, generated.0, GeneratedLog(items), generated.1);
  }

  // ---------------------------------------------------------------------------
  // Particular selectors

  /** A selector none of whose terms ever returns a truthy value claims nothing. */
  lemma {:induction false} DecliningSelectsNothing<S(!new), T(!new)>(sel: Selector<S, T>, s: S, terms: seq<T>)
    requires forall s0, t :: !sel.decide(s0, t).1
    ensures forall k :: 0 <= k < |terms| ==> !Decide(sel, s, terms).1[k]
    decreases |terms|
  {
    if terms != [] {
      var n := |terms| - 1;
      DecliningSelectsNothing(sel, s, terms[..n]);
      var done := Decide(sel, s, terms[..n]);
      var next := sel.decide(done.0, terms[n]);
      assert Decide(sel, s, terms) == (next.0, done.1 + [next.1]);
      assert !sel.decide(done.0, terms[n]).1;
      assert !next.1;
      assert forall k :: 0 <= k < n ==> !done.1[k];
    }
  }

  /** Claims every candidate it is offered. */
  function TakeAll(): Selector<(), ()> {
    Selector((s: (), x: Record) => ((), ()), (s: (), t: ()) => ((), true))
  }

  lemma {:induction false} TakeAllSelectsEvery(s: (), terms: seq<()>)
    ensures forall k :: 0 <= k < |terms| ==> Decide(TakeAll(), s, terms).1[k]
    decreases |terms|
  {
    if terms != [] {
      TakeAllSelectsEvery(s, terms[..|terms| - 1]);
    }
  }

  /** The selector `lambda x: lambda: seen_items.append(x)`: each term records its
      candidate in `seen_items` and returns `None`. */
  function Recorder(): Selector<seq<Record>, Record> {
    Selector((seen: seq<Record>, x: Record) => (seen, x),
             (seen: seq<Record>, x: Record) => (seen + [x], false))
  }

  lemma {:induction false} RecorderGenerate(seen: seq<Record>, items: seq<Record>)
    ensures Generate(Recorder(), seen, items) == (seen, items)
    decreases |items|
  {
    if items != [] {
      RecorderGenerate(seen, items[..|items| - 1]);
      assert items[..|items| - 1] + [items[|items| - 1]] == items;
    }
  }

  lemma {:induction false} RecorderDecide(seen: seq<Record>, items: seq<Record>)
    ensures Decide(Recorder(), seen, items).0 == seen + items
    decreases |items|
  {
    if items != [] {
      var n := |items| - 1;
      RecorderDecide(seen, items[..n]);
      assert seen + items[..n] + [items[n]] == seen + items;
    } else {
      assert seen + items == seen;
    }
  }

  /** The recorder sees every candidate, in the order offered, and claims none. */
  lemma RecorderSeesAll(items: seq<Record>)
    ensures Select(Recorder(), [], items).0 == items
    ensures forall k :: 0 <= k < |items| ==> !Select(Recorder(), [], items).1[k]
  {
    RecorderGenerate([], items);
    RecorderDecide([], items);
    DecliningSelectsNothing(Recorder(), [], items);
  }
}
