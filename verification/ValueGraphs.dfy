/** The limit check on live Python values, which may share parts and even contain themselves. */
module ValueGraphs {
  import opened Wrappers
  import opened JsonLimits

  type Ref = nat

  /** A list or dictionary has an identity and children; an integer has digits; everything else is a leaf. */
  datatype Node = Leaf | Integer(digits: nat) | Container(children: seq<Ref>)

  /** All references lead to values. */
  type Heap = map<Ref, Node>

  ghost predicate ClosedHeap(heap: Heap) {
    forall r | r in heap && heap[r].Container? :: forall c | c in heap[r].children :: c in heap
  }

  /** Unfolded from `r`, containers nest to the limit at most and no integer is too long. */
  ghost predicate Within(heap: Heap, r: Ref, depth: nat)
    requires ClosedHeap(heap) && r in heap
    decreases MAX_CANONICAL_JSON_DEPTH - depth
  {
    match heap[r]
    case Leaf => true
    case Integer(digits) => digits <= MAX_CANONICAL_INTEGER_DIGITS
    case Container(children) =>
      depth < MAX_CANONICAL_JSON_DEPTH && forall c | c in children :: Within(heap, c, depth + 1)
  }

  ghost predicate ChildOf(heap: Heap, a: Ref, b: Ref) {
    a in heap && heap[a].Container? && b in heap[a].children
  }

  /** `b` is reached from `a` in `n` steps from container to child. */
  ghost predicate Reaches(heap: Heap, a: Ref, b: Ref, n: nat)
    decreases n
  {
    if n == 0 then a == b else exists c :: Reaches(heap, a, c, n - 1) && ChildOf(heap, c, b)
  }

  ghost predicate Descends(heap: Heap, a: Ref, b: Ref) { exists n :: n > 0 && Reaches(heap, a, b, n) }

  lemma DescendFurther(heap: Heap, a: Ref, b: Ref, c: Ref)
    requires (a == b || Descends(heap, a, b)) && ChildOf(heap, b, c)
    ensures Descends(heap, a, c)
  {
    var n: nat;
    if a == b {
      n := 0;
    } else {
      n :| n > 0 && Reaches(heap, a, b, n);
    }
    assert Reaches(heap, a, b, n);
    assert Reaches(heap, a, c, n + 1);
  }

  /** Every step downwards uses up one level. */
  lemma {:induction false} WithinAlong(heap: Heap, a: Ref, b: Ref, n: nat, depth: nat)
    requires ClosedHeap(heap) && a in heap && Within(heap, a, depth) && Reaches(heap, a, b, n)
    ensures b in heap && Within(heap, b, depth + n)
    decreases n
  {
    if n > 0 {
      var c :| Reaches(heap, a, c, n - 1) && ChildOf(heap, c, b);
      WithinAlong(heap, a, c, n - 1, depth);
    }
  }

  lemma {:induction false} DescendantIsContainer(heap: Heap, a: Ref, b: Ref, n: nat)
    requires n > 0 && Reaches(heap, a, b, n)
    ensures a in heap && heap[a].Container?
    decreases n
  {
    var c :| Reaches(heap, a, c, n - 1) && ChildOf(heap, c, b);
    if n > 1 { DescendantIsContainer(heap, a, c, n - 1); }
  }

  /** A value that contains itself is within no limit. */
  lemma {:induction false} CycleExceeds(heap: Heap, r: Ref, n: nat, depth: nat)
    requires ClosedHeap(heap) && r in heap && n > 0 && Reaches(heap, r, r, n)
    ensures !Within(heap, r, depth)
    decreases MAX_CANONICAL_JSON_DEPTH - depth
  {
    DescendantIsContainer(heap, r, r, n);
    if depth < MAX_CANONICAL_JSON_DEPTH && Within(heap, r, depth) {
      WithinAlong(heap, r, r, n, depth);
      CycleExceeds(heap, r, n, depth + n);
    }
  }

  // ---------------------------------------------------------------- the stack with exit markers

  datatype Entry = Entry(ref: Ref, depth: nat, exiting: bool)

  /** How much work an entry can still bring. */
  ghost function Weight(heap: Heap, r: Ref, depth: nat): nat
    requires ClosedHeap(heap) && r in heap
    decreases MAX_CANONICAL_JSON_DEPTH - depth, 1
  {
    if heap[r].Container? && depth < MAX_CANONICAL_JSON_DEPTH then 2 + WeightOfAll(heap, heap[r].children, depth + 1) else 1
  }

  ghost function WeightOfAll(heap: Heap, refs: seq<Ref>, depth: nat): nat
    requires ClosedHeap(heap) && forall r | r in refs :: r in heap
    decreases MAX_CANONICAL_JSON_DEPTH - depth, 2, |refs|
  {
    if refs == [] then 0 else WeightOfAll(heap, refs[..|refs| - 1], depth) + Weight(heap, refs[|refs| - 1], depth)
  }

  ghost predicate Known(heap: Heap, stack: seq<Entry>) { forall e | e in stack :: e.ref in heap }

  ghost function WeightOfStack(heap: Heap, stack: seq<Entry>): nat
    requires ClosedHeap(heap) && Known(heap, stack)
  {
    if stack == [] then 0
    else
      var top := stack[|stack| - 1];
      WeightOfStack(heap, stack[..|stack| - 1]) + if top.exiting then 1 else Weight(heap, top.ref, top.depth)
  }

  function ChildEntries(children: seq<Ref>, depth: nat): seq<Entry> {
    seq(|children|, i requires 0 <= i < |children| => Entry(children[i], depth, false))
  }

  lemma {:induction false} PushWeight(heap: Heap, stack: seq<Entry>, children: seq<Ref>, depth: nat)
    requires ClosedHeap(heap) && Known(heap, stack) && forall r | r in children :: r in heap
    ensures Known(heap, stack + ChildEntries(children, depth))
    ensures WeightOfStack(heap, stack + ChildEntries(children, depth)) == WeightOfStack(heap, stack) + WeightOfAll(heap, children, depth)
    decreases |children|
  {
    if children == [] {
      assert stack + ChildEntries(children, depth) == stack;
    } else {
      var front, last := children[..|children| - 1], children[|children| - 1];
      PushWeight(heap, stack, front, depth);
      var all := stack + ChildEntries(children, depth);
      assert all == (stack + ChildEntries(front, depth)) + [Entry(last, depth, false)];
      assert all[..|all| - 1] == stack + ChildEntries(front, depth);
    }
  }

  /** Everything above an exit marker is part of the container that is being left there. */
  ghost predicate Nested(heap: Heap, stack: seq<Entry>) {
    forall i, k | 0 <= i < k < |stack| && stack[i].exiting :: Descends(heap, stack[i].ref, stack[k].ref)
  }

  /** The active containers are those with an exit marker, each with one. */
  ghost predicate Marked(stack: seq<Entry>, active: set<Ref>) {
    && (forall r :: r in active <==> exists i :: 0 <= i < |stack| && stack[i].exiting && stack[i].ref == r)
    && (forall i, k | 0 <= i < k < |stack| && stack[i].exiting && stack[k].exiting :: stack[i].ref != stack[k].ref)
  }

  /** What is still to be entered decides. */
  ghost predicate Decides(heap: Heap, root: Ref, stack: seq<Entry>)
    requires ClosedHeap(heap) && root in heap && Known(heap, stack)
  {
    Within(heap, root, 0) <==> forall e | e in stack && !e.exiting :: Within(heap, e.ref, e.depth)
  }

  ghost predicate Walking(heap: Heap, root: Ref, stack: seq<Entry>, active: set<Ref>) {
    && ClosedHeap(heap) && root in heap && Known(heap, stack)
    && Nested(heap, stack) && Marked(stack, active) && Decides(heap, root, stack)
  }

  lemma WalkBegins(heap: Heap, root: Ref)
    requires ClosedHeap(heap) && root in heap
    ensures Walking(heap, root, [Entry(root, 0, false)], {}) && Known(heap, [Entry(root, 0, false)]) && DepthsFit([Entry(root, 0, false)])
  {
    var stack := [Entry(root, 0, false)];
    assert stack[0] in stack;
  }

  lemma Popped(heap: Heap, root: Ref, stack: seq<Entry>, active: set<Ref>)
    requires Walking(heap, root, stack, active) && stack != []
    ensures var top, rest := stack[|stack| - 1], stack[..|stack| - 1];
            && top.ref in heap && Known(heap, rest) && Nested(heap, rest)
            && WeightOfStack(heap, stack) == WeightOfStack(heap, rest) + (if top.exiting then 1 else Weight(heap, top.ref, top.depth))
            && (top.exiting ==> top.ref in active && Walking(heap, root, rest, active - {top.ref}))
            && (!top.exiting && Within(heap, top.ref, top.depth) && heap[top.ref].Container? == false ==> Walking(heap, root, rest, active))
  {
    var top, rest := stack[|stack| - 1], stack[..|stack| - 1];
    assert stack == rest + [top];
    assert top in stack;
    hide Within, Descends;
    assert forall e | e in rest :: e in stack;
    forall i | 0 <= i < |rest| ensures rest[i] == stack[i] {}
    if top.exiting {
      MarkedPop(stack, active);
    } else {
      MarkedSame(stack, active);
    }
  }

  lemma MarkedPop(stack: seq<Entry>, active: set<Ref>)
    requires Marked(stack, active) && stack != [] && stack[|stack| - 1].exiting
    ensures var top := stack[|stack| - 1]; top.ref in active && Marked(stack[..|stack| - 1], active - {top.ref})
  {
    var n := |stack| - 1;
    var top, rest := stack[n], stack[..n];
    forall r
      ensures r in active - {top.ref} <==> exists i :: 0 <= i < |rest| && rest[i].exiting && rest[i].ref == r
    {
      if r in active && r != top.ref {
        var i :| 0 <= i < |stack| && stack[i].exiting && stack[i].ref == r;
        assert rest[i] == stack[i];
      }
      if i :| 0 <= i < |rest| && rest[i].exiting && rest[i].ref == r {
        assert stack[i] == rest[i];
      }
    }
  }

  lemma MarkedSame(stack: seq<Entry>, active: set<Ref>)
    requires Marked(stack, active) && stack != [] && !stack[|stack| - 1].exiting
    ensures Marked(stack[..|stack| - 1], active)
  {
    var rest := stack[..|stack| - 1];
    forall r
      ensures r in active <==> exists i :: 0 <= i < |rest| && rest[i].exiting && rest[i].ref == r
    {
      if r in active {
        var i :| 0 <= i < |stack| && stack[i].exiting && stack[i].ref == r;
        assert rest[i] == stack[i];
      }
      if i :| 0 <= i < |rest| && rest[i].exiting && rest[i].ref == r {
        assert stack[i] == rest[i];
      }
    }
  }

  /** Meeting an active container again means it contains itself. */
  lemma MetAgain(heap: Heap, root: Ref, stack: seq<Entry>, active: set<Ref>)
    requires Walking(heap, root, stack, active) && stack != []
    requires var top := stack[|stack| - 1]; !top.exiting && top.ref in active
    ensures Descends(heap, stack[|stack| - 1].ref, stack[|stack| - 1].ref)
    ensures !Within(heap, root, 0)
  {
    var top := stack[|stack| - 1];
    var i :| 0 <= i < |stack| && stack[i].exiting && stack[i].ref == top.ref;
    assert Descends(heap, stack[i].ref, stack[|stack| - 1].ref);
    var n :| n > 0 && Reaches(heap, top.ref, top.ref, n);
    CycleExceeds(heap, top.ref, n, top.depth);
    assert top in stack;
  }

  lemma Refused(heap: Heap, root: Ref, stack: seq<Entry>, active: set<Ref>)
    requires Walking(heap, root, stack, active) && stack != []
    requires var top := stack[|stack| - 1]; !top.exiting && !Within(heap, top.ref, top.depth)
    ensures !Within(heap, root, 0)
  {
    assert stack[|stack| - 1] in stack;
  }

  /** Entering a container: an exit marker in its place, and its children above. */
  lemma Entered(heap: Heap, root: Ref, rest: seq<Entry>, top: Entry, active: set<Ref>)
    requires Walking(heap, root, rest + [top], active)
    requires top.ref in heap && !top.exiting && heap[top.ref].Container? && top.depth < MAX_CANONICAL_JSON_DEPTH && top.ref !in active
    ensures var next := rest + [Entry(top.ref, top.depth + 1, true)] + ChildEntries(heap[top.ref].children, top.depth + 1);
            Known(heap, next) && Walking(heap, root, next, active + {top.ref}) && WeightOfStack(heap, next) < WeightOfStack(heap, rest + [top])
  {
    hide Nested, Marked, Decides, Within, Descends, WeightOfStack, Weight, ChildEntries, Known, ClosedHeap;
    var children := heap[top.ref].children;
    EnteredWeight(heap, rest, top, children);
    NestedChildren(heap, rest + [top], rest, top, children);
    MarkedChildren(rest + [top], rest, top, children, active);
    DecidedChildren(heap, root, rest + [top], rest, top, children);
  }

  lemma EnteredWeight(heap: Heap, rest: seq<Entry>, top: Entry, children: seq<Ref>)
    requires ClosedHeap(heap) && Known(heap, rest + [top])
    requires top.ref in heap && !top.exiting && heap[top.ref] == Container(children) && top.depth < MAX_CANONICAL_JSON_DEPTH
    ensures var next := rest + [Entry(top.ref, top.depth + 1, true)] + ChildEntries(children, top.depth + 1);
            Known(heap, next) && WeightOfStack(heap, next) < WeightOfStack(heap, rest + [top])
  {
    var below := rest + [Entry(top.ref, top.depth + 1, true)];
    assert below[..|below| - 1] == rest && (rest + [top])[..|rest|] == rest;
    assert forall e | e in below :: e in rest || e == Entry(top.ref, top.depth + 1, true);
    assert forall e | e in rest :: e in rest + [top];
    PushWeight(heap, below, children, top.depth + 1);
  }

  lemma NestedChildren(heap: Heap, stack: seq<Entry>, rest: seq<Entry>, top: Entry, children: seq<Ref>)
    requires Nested(heap, stack) && stack == rest + [top] && top.ref in heap && heap[top.ref] == Container(children)
    ensures Nested(heap, rest + [Entry(top.ref, top.depth + 1, true)] + ChildEntries(children, top.depth + 1))
  {
    hide Descends;
    var n := |rest|;
    var next := rest + [Entry(top.ref, top.depth + 1, true)] + ChildEntries(children, top.depth + 1);
    forall i, k | 0 <= i < k < |next| && next[i].exiting
      ensures Descends(heap, next[i].ref, next[k].ref)
    {
      assert i <= n;
      if i < n { assert stack[i] == next[i] && Descends(heap, stack[i].ref, stack[n].ref); }
      if k < n {
        assert stack[k] == next[k];
      } else if k > n {
        assert next[k].ref == children[k - n - 1];
        DescendFurther(heap, next[i].ref, top.ref, next[k].ref);
      }
    }
  }

  lemma MarkedChildren(stack: seq<Entry>, rest: seq<Entry>, top: Entry, children: seq<Ref>, active: set<Ref>)
    requires Marked(stack, active) && stack == rest + [top] && !top.exiting && top.ref !in active
    ensures Marked(rest + [Entry(top.ref, top.depth + 1, true)] + ChildEntries(children, top.depth + 1), active + {top.ref})
  {
    var n := |rest|;
    var next := rest + [Entry(top.ref, top.depth + 1, true)] + ChildEntries(children, top.depth + 1);
    assert next[n] == Entry(top.ref, top.depth + 1, true);
    assert forall i | 0 <= i < n :: next[i] == stack[i];
    assert forall k | n < k < |next| :: !next[k].exiting;
    forall r
      ensures r in active + {top.ref} <==> exists i :: 0 <= i < |next| && next[i].exiting && next[i].ref == r
    {
      if r in active {
        var i :| 0 <= i < |stack| && stack[i].exiting && stack[i].ref == r;
        assert next[i] == stack[i];
      }
      if i :| 0 <= i < |next| && next[i].exiting && next[i].ref == r {
        if i < n { assert stack[i] == next[i]; }
      }
    }
  }

  lemma DecidedChildren(heap: Heap, root: Ref, stack: seq<Entry>, rest: seq<Entry>, top: Entry, children: seq<Ref>)
    requires ClosedHeap(heap) && root in heap && Known(heap, stack) && Decides(heap, root, stack)
    requires stack == rest + [top] && !top.exiting && heap[top.ref] == Container(children) && top.depth < MAX_CANONICAL_JSON_DEPTH
    requires Known(heap, rest + [Entry(top.ref, top.depth + 1, true)] + ChildEntries(children, top.depth + 1))
    ensures Decides(heap, root, rest + [Entry(top.ref, top.depth + 1, true)] + ChildEntries(children, top.depth + 1))
  {
    var above := ChildEntries(children, top.depth + 1);
    var next := rest + [Entry(top.ref, top.depth + 1, true)] + above;
    assert Within(heap, top.ref, top.depth) <==> forall c | c in children :: Within(heap, c, top.depth + 1);
    hide Within;
    assert forall e :: e in stack <==> e in rest || e == top;
    assert forall e :: e in next <==> e in rest || e == Entry(top.ref, top.depth + 1, true) || e in above;
    assert forall e | e in above :: e.ref in children && e.depth == top.depth + 1 && !e.exiting;
    forall c | c in children
      ensures Entry(c, top.depth + 1, false) in above
    {
      var i :| 0 <= i < |children| && children[i] == c;
      assert above[i] == Entry(c, top.depth + 1, false);
    }
  }

  datatype Error = TooLong(digits: nat) | TooDeep(depth: nat) | Circular

  /** What is still to be entered hangs below the value given, at its depth. */
  ghost predicate Rooted(heap: Heap, root: Ref, stack: seq<Entry>) {
    forall e | e in stack && !e.exiting :: Reaches(heap, root, e.ref, e.depth)
  }

  lemma RootIsRooted(heap: Heap, root: Ref)
    ensures Rooted(heap, root, [Entry(root, 0, false)])
  {
    assert Reaches(heap, root, root, 0);
  }

  lemma RootedBelow(heap: Heap, root: Ref, rest: seq<Entry>, top: Entry)
    requires Rooted(heap, root, rest + [top])
    ensures Rooted(heap, root, rest) && (!top.exiting ==> Reaches(heap, root, top.ref, top.depth))
  {
    hide Reaches;
    assert top in rest + [top];
    assert forall e | e in rest :: e in rest + [top];
  }

  lemma RootedAbove(heap: Heap, root: Ref, rest: seq<Entry>, top: Entry)
    requires Rooted(heap, root, rest) && Reaches(heap, root, top.ref, top.depth)
    requires top.ref in heap && heap[top.ref].Container?
    ensures var children := heap[top.ref].children;
            Rooted(heap, root, rest + [Entry(top.ref, top.depth + 1, true)] + ChildEntries(children, top.depth + 1))
  {
    var children := heap[top.ref].children;
    forall i | 0 <= i < |children|
      ensures Reaches(heap, root, children[i], top.depth + 1)
    {
      assert ChildOf(heap, top.ref, children[i]);
    }
  }

  /** The error is there, below the value given: a cycle, a container beyond the limit, or an integer too long. */
  ghost predicate FoundBelow(heap: Heap, root: Ref, error: Error) {
    match error
    case Circular => exists r, n :: Reaches(heap, root, r, n) && Descends(heap, r, r)
    case TooDeep(depth) =>
      depth == MAX_CANONICAL_JSON_DEPTH + 1 && exists r :: Reaches(heap, root, r, depth - 1) && r in heap && heap[r].Container?
    case TooLong(digits) =>
      digits > MAX_CANONICAL_INTEGER_DIGITS && exists r, n :: Reaches(heap, root, r, n) && r in heap && heap[r] == Integer(digits)
  }

  lemma FoundAt(heap: Heap, root: Ref, r: Ref, n: nat)
    requires Reaches(heap, root, r, n) && r in heap
    ensures Descends(heap, r, r) ==> FoundBelow(heap, root, Circular)
    ensures n == MAX_CANONICAL_JSON_DEPTH && heap[r].Container? ==> FoundBelow(heap, root, TooDeep(n + 1))
    ensures heap[r].Integer? && heap[r].digits > MAX_CANONICAL_INTEGER_DIGITS ==> FoundBelow(heap, root, TooLong(heap[r].digits))
  {
    hide Reaches, Descends;
  }

  /** `_validate_value_limits` of the Python side: accepts exactly what unfolds within the limits, and calls only real cycles circular. */
  method ValidateValueGraph(heap: Heap, root: Ref) returns (error: Option<Error>)
    requires ClosedHeap(heap) && root in heap
    ensures error.None? <==> Within(heap, root, 0)
    ensures error.Some? ==> FoundBelow(heap, root, error.value)
  {
    hide *;
    var stack := [Entry(root, 0, false)];
    var active: set<Ref> := {};
    WalkBegins(heap, root);
    RootIsRooted(heap, root);
    while stack != []
      invariant Walking(heap, root, stack, active) && Known(heap, stack) && DepthsFit(stack) && Rooted(heap, root, stack)
      decreases WeightOfStack(heap, stack)
    {
      var top, rest := stack[|stack| - 1], stack[..|stack| - 1];
      assert stack == rest + [top];
      NodeWithin(heap, root, stack, active);
      Popped(heap, root, stack, active);
      DepthsBelow(rest, top);
      RootedBelow(heap, root, rest, top);
      if top.exiting {
        active := active - {top.ref};
        stack := rest;
        continue;
      }
      SomeWeight(heap, top.ref, top.depth);
      FoundAt(heap, root, top.ref, top.depth);
      match heap[top.ref]
      case Leaf => stack := rest;
      case Integer(digits) =>
        if digits > MAX_CANONICAL_INTEGER_DIGITS {
          Refused(heap, root, stack, active);
          return Some(TooLong(digits));
        }
        stack := rest;
      case Container(children) =>
        var depth := top.depth + 1;
        if depth > MAX_CANONICAL_JSON_DEPTH {
          Refused(heap, root, stack, active);
          return Some(TooDeep(depth));
        }
        if top.ref in active {
          MetAgain(heap, root, stack, active);
          return Some(Circular);
        }
        Entered(heap, root, rest, top, active);
        DepthsAbove(rest, top, children);
        RootedAbove(heap, root, rest, top);
        active := active + {top.ref};
        stack := rest + [Entry(top.ref, depth, true)] + ChildEntries(children, depth);
    }
    NothingLeft(heap, root, active);
    error := None;
  }

  ghost predicate DepthsFit(stack: seq<Entry>) {
    forall e | e in stack && !e.exiting :: e.depth <= MAX_CANONICAL_JSON_DEPTH
  }

  lemma DepthsBelow(rest: seq<Entry>, top: Entry)
    requires DepthsFit(rest + [top])
    ensures DepthsFit(rest) && (!top.exiting ==> top.depth <= MAX_CANONICAL_JSON_DEPTH)
  {
    assert top in rest + [top];
    assert forall e | e in rest :: e in rest + [top];
  }

  lemma DepthsAbove(rest: seq<Entry>, top: Entry, children: seq<Ref>)
    requires DepthsFit(rest) && top.depth < MAX_CANONICAL_JSON_DEPTH
    ensures DepthsFit(rest + [Entry(top.ref, top.depth + 1, true)] + ChildEntries(children, top.depth + 1))
  {
  }

  lemma NodeWithin(heap: Heap, root: Ref, stack: seq<Entry>, active: set<Ref>)
    requires Walking(heap, root, stack, active) && stack != []
    ensures var top := stack[|stack| - 1];
            && top.ref in heap
            && (heap[top.ref].Leaf? ==> Within(heap, top.ref, top.depth))
            && (heap[top.ref].Integer? ==> (Within(heap, top.ref, top.depth) <==> heap[top.ref].digits <= MAX_CANONICAL_INTEGER_DIGITS))
            && (heap[top.ref].Container? && top.depth >= MAX_CANONICAL_JSON_DEPTH ==> !Within(heap, top.ref, top.depth))
  {
    assert stack[|stack| - 1] in stack;
  }

  lemma SomeWeight(heap: Heap, r: Ref, depth: nat)
    requires ClosedHeap(heap) && r in heap
    ensures Weight(heap, r, depth) > 0
  {
  }

  lemma NothingLeft(heap: Heap, root: Ref, active: set<Ref>)
    requires Walking(heap, root, [], active)
    ensures Within(heap, root, 0)
  {
  }
}
