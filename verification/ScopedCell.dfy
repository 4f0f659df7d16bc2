/** A cell that guards set for their scope. */
module ScopedCell {
  // The thread-local warning flag, and the count of what a project has spent.

  import opened Prelude

  /** What happens to the cell: a guard is made, the last one made is dropped, or a
      new total is recorded. */
  datatype Use<T> = Open(value: T) | Drop | Record(total: T)

  /** The value in the cell, and what each open guard will put back. */
  datatype Held<T> = Held(current: T, saved: seq<T>)

  /** `project_budget::record`: a total is kept only while a scope counts. */
  function RecordInScope(held: Option<nat>, total: Option<nat>): Option<nat> {
    if held.Some? then total else held
  }

  /** `WARN_ENABLED` has no other writer than its guards. */
  function NothingToRecord(held: bool, total: bool): bool {
    held
  }

  predicate WellNested<T>(uses: seq<Use<T>>, depth: nat) {
    if uses == [] then depth == 0
    else
      match uses[0]
      case Open(_) => WellNested(uses[1..], depth + 1)
      case Drop => depth > 0 && WellNested(uses[1..], depth - 1)
      case Record(_) => WellNested(uses[1..], depth)
  }

  /** `depth` guards are open that `uses` will drop. */
  function Run<T>(put: (T, T) -> T, uses: seq<Use<T>>, depth: nat, h: Held<T>): Held<T>
    requires WellNested(uses, depth) && depth <= |h.saved|
    decreases |uses|
  {
    if uses == [] then h
    else
      match uses[0]
      case Open(v) => Run(put, uses[1..], depth + 1, Held(v, h.saved + [h.current]))
      case Drop => Run(put, uses[1..], depth - 1, Held(h.saved[|h.saved| - 1], h.saved[..|h.saved| - 1]))
      case Record(t) => Run(put, uses[1..], depth, Held(put(h.current, t), h.saved))
  }

  /** What the records made outside every guard come to. */
  function RecordedOutside<T>(put: (T, T) -> T, uses: seq<Use<T>>, depth: nat, value: T): T
    requires WellNested(uses, depth)
    decreases |uses|
  {
    if uses == [] then value
    else
      match uses[0]
      case Open(_) => RecordedOutside(put, uses[1..], depth + 1, value)
      case Drop => RecordedOutside(put, uses[1..], depth - 1, value)
      case Record(t) => RecordedOutside(put, uses[1..], depth, if depth == 0 then put(value, t) else value)
  }

  /** After any well-nested use the guards are as they were, and the cell holds what
      was recorded outside every guard: nothing a scope did shows after it. */
  lemma {:induction false} ScopesLeaveNoTrace<T>(put: (T, T) -> T, uses: seq<Use<T>>, h: Held<T>)
    requires WellNested(uses, 0)
    ensures Run(put, uses, 0, h) == Held(RecordedOutside(put, uses, 0, h.current), h.saved)
  {
    ScopesUnwind(put, uses, 0, h);
    assert h.saved[..|h.saved|] == h.saved;
  }

  lemma {:induction false} ScopesUnwind<T>(put: (T, T) -> T, uses: seq<Use<T>>, depth: nat, h: Held<T>)
    requires WellNested(uses, depth) && depth <= |h.saved|
    ensures var base := |h.saved| - depth;
            var outside := if depth == 0 then h.current else h.saved[base];
            Run(put, uses, depth, h) == Held(RecordedOutside(put, uses, depth, outside), h.saved[..base])
    decreases |uses|
  {
    var base := |h.saved| - depth;
    if uses != [] {
      match uses[0]
      case Open(v) =>
        ScopesUnwind(put, uses[1..], depth + 1, Held(v, h.saved + [h.current]));
        assert (h.saved + [h.current])[..base] == h.saved[..base];
      case Drop =>
        var rest := h.saved[..|h.saved| - 1];
        ScopesUnwind(put, uses[1..], depth - 1, Held(h.saved[|h.saved| - 1], rest));
        assert rest[..base] == h.saved[..base];
      case Record(t) =>
        ScopesUnwind(put, uses[1..], depth, Held(put(h.current, t), h.saved));
    }
  }

  /** With no records the flag is back to its old value. */
  lemma {:induction false} TheFlagComesBack(uses: seq<Use<bool>>, h: Held<bool>)
    requires WellNested(uses, 0)
    ensures Run(NothingToRecord, uses, 0, h) == h
  {
    ScopesLeaveNoTrace(NothingToRecord, uses, h);
    NothingIsRecorded(uses, 0, h.current);
  }

  lemma {:induction false} NothingIsRecorded(uses: seq<Use<bool>>, depth: nat, value: bool)
    requires WellNested(uses, depth)
    ensures RecordedOutside(NothingToRecord, uses, depth, value) == value
    decreases |uses|
  {
    if uses != [] {
      match uses[0]
      case Open(_) => NothingIsRecorded(uses[1..], depth + 1, value);
      case Drop => NothingIsRecorded(uses[1..], depth - 1, value);
      case Record(_) => NothingIsRecorded(uses[1..], depth, value);
    }
  }

  /** A load outside every scope counts nothing: `spent` is 0 before and after it. */
  lemma {:induction false} NothingCountsOutsideAScope(uses: seq<Use<Option<nat>>>, saved: seq<Option<nat>>)
    requires WellNested(uses, 0)
    ensures Run(RecordInScope, uses, 0, Held(None, saved)) == Held(None, saved)
  {
    ScopesLeaveNoTrace(RecordInScope, uses, Held(None, saved));
    NothingIsKept(uses, 0);
  }

  lemma {:induction false} NothingIsKept(uses: seq<Use<Option<nat>>>, depth: nat)
    requires WellNested(uses, depth)
    ensures RecordedOutside(RecordInScope, uses, depth, None) == None
    decreases |uses|
  {
    if uses != [] {
      match uses[0]
      case Open(_) => NothingIsKept(uses[1..], depth + 1);
      case Drop => NothingIsKept(uses[1..], depth - 1);
      case Record(_) => NothingIsKept(uses[1..], depth);
    }
  }

  /** The cell and its guards. A guard is the value it will put back. */
  class Cell<T> {
    var current: T

    constructor (value: T)
      ensures current == value
    {
      current := value;
    }

    method Replace(value: T) returns (guard: T)
      modifies this
      ensures guard == old(current) && current == value
    {
      guard := current;
      current := value;
    }

    method PutBack(guard: T)
      modifies this
      ensures current == guard
    {
      current := guard;
    }

    /** A run of guards made and dropped in reverse order, as Rust drops locals. */
    method Perform(put: (T, T) -> T, uses: seq<Use<T>>)
      requires WellNested(uses, 0)
      modifies this
      ensures current == RecordedOutside(put, uses, 0, old(current))
    {
      ghost var start := Held(current, []);
      ScopesLeaveNoTrace(put, uses, start);
      var guards: seq<T> := [];
      var rest := uses;
      while rest != []
        invariant WellNested(rest, |guards|)
        invariant Run(put, rest, |guards|, Held(current, guards)) == Run(put, uses, 0, start)
        decreases |rest|
      {
        match rest[0] {
          case Open(v) =>
            var guard := Replace(v);
            guards := guards + [guard];
          case Drop =>
            PutBack(guards[|guards| - 1]);
            guards := guards[..|guards| - 1];
          case Record(t) =>
            current := put(current, t);
        }
        rest := rest[1..];
      }
    }
  }
}
