/**
 * The shape shared by the two loops of the DfuSe parser: read `count`
 * records one after another, each starting where the previous one left the
 * file cursor, and stop at the first error (a `for` loop that pushes onto a
 * `Vec` and returns early through `?`).
 *
 * A record reader is a function `step` from a cursor to the record read
 * there and the cursor it leaves behind. Its layout is described by `at`
 * (which record is stored at which offset) and `size` (how many bytes a
 * record occupies); `Reads` says that `step` reads exactly that layout.
 */
module Repeat {
  import opened Errors

  /** The outcome of a read whose values `xs` were read before it: the
      state of the loop that pushes onto a `Vec` and stops at the first
      error. */
  function Prepend<T>(xs: seq<T>, p: Parsed<seq<T>>): (q: Parsed<seq<T>>)
    ensures q.pos == p.pos && q.result.Ok? == p.result.Ok?
    ensures q.result.Ok? ==> |q.result.value| == |xs| + |p.result.value|
  {
    match p.result
    case Ok(ys) => Parsed(Ok(xs + ys), p.pos)
    case Err(_) => p
  }

  /** Nothing read before: the outcome is unchanged. */
  lemma PrependNothing<T>(p: Parsed<seq<T>>)
    ensures Prepend([], p) == p
  {
    if p.result.Ok? {
      assert [] + p.result.value == p.result.value;
    }
  }

  /** Values read in two batches are the values of both, in order. */
  lemma PrependPrepend<T>(xs: seq<T>, ys: seq<T>, p: Parsed<seq<T>>)
    ensures Prepend(xs, Prepend(ys, p)) == Prepend(xs + ys, p)
  {
    if p.result.Ok? {
      assert xs + (ys + p.result.value) == (xs + ys) + p.result.value;
    }
  }

  /** `count` records read by `step` one after another from `pos`,
      stopping at the first error; the cursor is the one the last step
      left behind. */
  function ParseMany<T>(step: nat -> Parsed<T>, pos: nat, count: nat): (p: Parsed<seq<T>>)
    ensures p.result.Ok? ==> |p.result.value| == count
    decreases count
  {
    if count == 0 then Parsed(Ok([]), pos)
    else
      var first := step(pos);
      match first.result
      case Err(e) => Parsed(Err(e), first.pos)
      case Ok(x) => Prepend([x], ParseMany(step, first.pos, count - 1))
  }

  /** Bytes occupied by the records `xs`. */
  function Span<T>(size: T -> nat, xs: seq<T>): nat
    decreases |xs|
  {
    if xs == [] then 0 else size(xs[0]) + Span(size, xs[1..])
  }

  /** The records `xs` are stored one after another from `pos`. */
  predicate StoredAt<T>(at: (nat, T) -> bool, size: T -> nat, pos: nat, xs: seq<T>)
    decreases |xs|
  {
    xs == [] || (at(pos, xs[0]) && StoredAt(at, size, pos + size(xs[0]), xs[1..]))
  }

  /** `step` succeeds exactly on the records `at` describes... */
  ghost predicate Accepts<T(!new)>(step: nat -> Parsed<T>, at: (nat, T) -> bool) {
    forall p: nat, x: T :: step(p).result == Ok(x) <==> at(p, x)
  }

  /** ... and then moves the cursor past the record it read. */
  ghost predicate Advances<T>(step: nat -> Parsed<T>, size: T -> nat) {
    forall p: nat :: step(p).result.Ok? ==> step(p).pos == p + size(step(p).result.value)
  }

  /** One iteration of the loop: with `acc` read before, reading `k` more
      records from `pos` is reading the first one, then `k - 1`. */
  lemma ParseManyStep<T>(step: nat -> Parsed<T>, pos: nat, k: nat, acc: seq<T>)
    requires k > 0
    ensures var first := step(pos);
      Prepend(acc, ParseMany(step, pos, k))
        == if first.result.Err? then Parsed(Err(first.result.error), first.pos)
           else Prepend(acc + [first.result.value], ParseMany(step, first.pos, k - 1))
  {
    var first := step(pos);
    if first.result.Ok? {
      PrependPrepend(acc, [first.result.value], ParseMany(step, first.pos, k - 1));
    }
  }

  /** The loop has nothing left to read: its outcome is what it read. */
  lemma ParseManyDone<T>(acc: seq<T>, pos: nat)
    ensures Prepend(acc, Parsed(Ok([]), pos)) == Parsed(Ok(acc), pos)
  {
    assert acc + [] == acc;
  }

  /** A non-empty run of records is read exactly when its first record is
      read at `pos` and the rest right after it. */
  lemma ParseManyCons<T>(step: nat -> Parsed<T>, pos: nat, count: nat, xs: seq<T>)
    requires count > 0 && xs != []
    ensures var first := step(pos);
      (ParseMany(step, pos, count).result == Ok(xs)
       <==> first.result == Ok(xs[0]) && ParseMany(step, first.pos, count - 1).result == Ok(xs[1..]))
  {
    var first := step(pos);
    if first.result.Ok? {
      var rest := ParseMany(step, first.pos, count - 1);
      if rest.result.Ok? {
        assert ([first.result.value] + rest.result.value)[1..] == rest.result.value;
      }
    }
    assert xs == [xs[0]] + xs[1..];
  }

  /** The loop reads `xs` exactly when `count` records are stored at
      `pos`. */
  lemma {:induction false} ParseManyLayout<T(!new)>(step: nat -> Parsed<T>, at: (nat, T) -> bool, size: T -> nat,
                                              pos: nat, count: nat, xs: seq<T>)
    requires Accepts(step, at) && Advances(step, size)
    ensures ParseMany(step, pos, count).result == Ok(xs) <==> |xs| == count && StoredAt(at, size, pos, xs)
    decreases count
  {
    if count > 0 && xs != [] {
      ParseManyCons(step, pos, count, xs);
      assert step(pos).result == Ok(xs[0]) <==> at(pos, xs[0]);
      if step(pos).result == Ok(xs[0]) {
        ParseManyLayout(step, at, size, step(pos).pos, count - 1, xs[1..]);
      }
    }
  }

  /** On success the cursor has moved by exactly the bytes of the records
      read. */
  lemma {:induction false} ParseManySpan<T>(step: nat -> Parsed<T>, size: T -> nat, pos: nat, count: nat)
    requires Advances(step, size)
    ensures var p := ParseMany(step, pos, count);
      p.result.Ok? ==> p.pos == pos + Span(size, p.result.value)
    decreases count
  {
    if count > 0 {
      var first := step(pos);
      if first.result.Ok? {
        var rest := ParseMany(step, first.pos, count - 1);
        ParseManySpan(step, size, first.pos, count - 1);
        if rest.result.Ok? {
          assert ([first.result.value] + rest.result.value)[1..] == rest.result.value;
        }
      }
    }
  }

  /** The cursor never moves backwards when no step moves it backwards. */
  lemma {:induction false} ParseManyForward<T>(step: nat -> Parsed<T>, pos: nat, count: nat)
    requires forall p: nat :: step(p).pos >= p
    ensures ParseMany(step, pos, count).pos >= pos
    decreases count
  {
    if count > 0 && step(pos).result.Ok? {
      ParseManyForward(step, step(pos).pos, count - 1);
    }
  }

  /** The loop fails only with errors its steps fail with. */
  lemma {:induction false} ParseManyErrors<T>(step: nat -> Parsed<T>, pos: nat, count: nat, errors: set<Error>)
    requires forall p: nat :: step(p).result.Err? ==> step(p).result.error in errors
    ensures var p := ParseMany(step, pos, count);
      p.result.Err? ==> p.result.error in errors
    decreases count
  {
    if count > 0 && step(pos).result.Ok? {
      ParseManyErrors(step, step(pos).pos, count - 1, errors);
    }
  }

  /** The bytes of the first `k` records: the first one, then the
      first `k - 1` of the rest. */
  lemma SpanPrefix<T>(size: T -> nat, xs: seq<T>, k: nat)
    requires 0 < k <= |xs|
    ensures Span(size, xs[..k]) == size(xs[0]) + Span(size, xs[1..][..k - 1])
  {
    assert xs[..k][1..] == xs[1..][..k - 1];
  }

  /** Records stored one after another: the `k`-th one lies at `pos` plus
      the bytes of the records before it. */
  lemma {:induction false} StoredAtEach<T>(at: (nat, T) -> bool, size: T -> nat, pos: nat, xs: seq<T>, k: nat)
    requires StoredAt(at, size, pos, xs) && k < |xs|
    ensures at(pos + Span(size, xs[..k]), xs[k])
    decreases k
  {
    if k == 0 {
      assert xs[..0] == [];
    } else {
      SpanPrefix(size, xs, k);
      StoredAtEach(at, size, pos + size(xs[0]), xs[1..], k - 1);
    }
  }

  /** Conversely, records each found at `pos` plus the bytes of the ones
      before it are stored one after another. */
  lemma {:induction false} StoredAtFromOffsets<T>(at: (nat, T) -> bool, size: T -> nat, pos: nat, xs: seq<T>)
    requires forall k :: 0 <= k < |xs| ==> at(pos + Span(size, xs[..k]), xs[k])
    ensures StoredAt(at, size, pos, xs)
    decreases |xs|
  {
    if xs != [] {
      assert xs[..0] == [];
      assert at(pos + Span(size, xs[..0]), xs[0]);
      var next := pos + size(xs[0]);
      forall j | 0 <= j < |xs[1..]|
        ensures at(next + Span(size, xs[1..][..j]), xs[1..][j])
      {
        SpanPrefix(size, xs, j + 1);
        assert at(pos + Span(size, xs[..j + 1]), xs[j + 1]);
      }
      StoredAtFromOffsets(at, size, next, xs[1..]);
    }
  }

  /** Stored one after another means: each record at `pos` plus the bytes
      of the records before it. */
  lemma StoredAtOffsets<T>(at: (nat, T) -> bool, size: T -> nat, pos: nat, xs: seq<T>)
    ensures StoredAt(at, size, pos, xs)
      <==> forall k :: 0 <= k < |xs| ==> at(pos + Span(size, xs[..k]), xs[k])
  {
    if StoredAt(at, size, pos, xs) {
      forall k | 0 <= k < |xs|
        ensures at(pos + Span(size, xs[..k]), xs[k])
      {
        StoredAtEach(at, size, pos, xs, k);
      }
    }
    if forall k :: 0 <= k < |xs| ==> at(pos + Span(size, xs[..k]), xs[k]) {
      StoredAtFromOffsets(at, size, pos, xs);
    }
  }
}
