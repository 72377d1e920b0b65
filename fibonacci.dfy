/**
  A model of the console Fibonacci printer: `fibonacci(n)` steps a pair (p, q)
  of consecutive Fibonacci numbers and writes every new value, separated by
  ", " and closed by a newline; `main` turns away bounds below 1.

  Console output is modelled as the sequence of writes the program makes, in
  order, instead of the characters that end up on the terminal.
*/
module FibonacciPrinter {

  /** One write to standard output. */
  datatype Write =
    | Number(value: int)   // fmt.Printf("%d", value)
    | Text(text: string)   // fmt.Printf(text), a format without verbs
    | Line(text: string)   // fmt.Println(text): the text, then a newline

  /** The separator written between two terms. */
  const Comma: Write := Text(", ")

  /** The line end written after the last term: fmt.Println() with no arguments. */
  const Newline: Write := Line("")

  /** The message `main` writes for a bound below 1. */
  const TooLow: Write := Line("Given number is too low, no sequence can be generated.")

  // ---------------------------------------------------------------------------
  // Fibonacci numbers
  // ---------------------------------------------------------------------------

  /** The Fibonacci numbers: Fib(0) = 0, Fib(1) = 1, Fib(k) = Fib(k-1) + Fib(k-2). */
  function Fib(k: nat): nat
  {
    if k < 2 then k else Fib(k - 1) + Fib(k - 2)
  }

  /** Every Fibonacci number from index 1 on is positive. */
  lemma {:induction false} FibPositive(k: nat)
    requires k >= 1
    ensures Fib(k) >= 1
  {
    if k >= 3 {
      FibPositive(k - 1);
    }
  }

  /** From index 2 on the Fibonacci numbers strictly increase. */
  lemma {:induction false} FibStrictlyIncreasing(a: nat, b: nat)
    requires 2 <= a < b
    ensures Fib(a) < Fib(b)
  {
    FibPositive(b - 2);
    if a < b - 1 {
      FibStrictlyIncreasing(a, b - 1);
    }
  }

  /** Non-strict form of FibStrictlyIncreasing. */
  lemma FibMonotone(a: nat, b: nat)
    requires 2 <= a <= b
    ensures Fib(a) <= Fib(b)
  {
    if a < b {
      FibStrictlyIncreasing(a, b);
    }
  }

  // ---------------------------------------------------------------------------
  // The terms the printer emits, as a specification
  // ---------------------------------------------------------------------------

  /** Fib(k), Fib(k+1), ... as long as they do not exceed n. */
  function TermsFrom(k: nat, n: int): seq<int>
    requires k >= 2
    decreases n - Fib(k)
  {
    if n < Fib(k) then []
    else
      FibStrictlyIncreasing(k, k + 1);
      [Fib(k)] + TermsFrom(k + 1, n)
  }

  /** The terms `fibonacci(n)` emits: Fib(2), Fib(3), ... up to the largest one not above n. */
  function FibTerms(n: int): seq<int>
  {
    TermsFrom(2, n)
  }

  /**
    An independent description of the emitted terms: term i is Fib(i + 2), the
    last term does not exceed n, and the Fibonacci number after it does.
  */
  ghost predicate IsFibRunUpTo(ts: seq<int>, n: int)
  {
    && (forall i :: 0 <= i < |ts| ==> ts[i] == Fib(i + 2))
    && (|ts| > 0 ==> ts[|ts| - 1] <= n)
    && n < Fib(|ts| + 2)
  }

  lemma {:induction false} TermsFromShape(k: nat, n: int)
    requires k >= 2
    ensures forall i :: 0 <= i < |TermsFrom(k, n)| ==> TermsFrom(k, n)[i] == Fib(k + i)
    ensures |TermsFrom(k, n)| > 0 ==> Fib(k + |TermsFrom(k, n)| - 1) <= n
    ensures n < Fib(k + |TermsFrom(k, n)|)
    decreases n - Fib(k)
  {
    if n >= Fib(k) {
      FibStrictlyIncreasing(k, k + 1);
      TermsFromShape(k + 1, n);
      var rest := TermsFrom(k + 1, n);
      assert TermsFrom(k, n) == [Fib(k)] + rest;
      forall i | 0 <= i < |TermsFrom(k, n)|
        ensures TermsFrom(k, n)[i] == Fib(k + i)
      {
        if i > 0 {
          assert TermsFrom(k, n)[i] == rest[i - 1];
        }
      }
    }
  }

  /** Two runs that both satisfy IsFibRunUpTo for the same bound are the same run. */
  lemma FibRunUnique(ts: seq<int>, us: seq<int>, n: int)
    requires IsFibRunUpTo(ts, n) && IsFibRunUpTo(us, n)
    ensures ts == us
  {
    if |ts| < |us| {
      assert us[|us| - 1] == Fib(|us| + 1);
      FibMonotone(|ts| + 2, |us| + 1);
      assert false;
    } else if |us| < |ts| {
      assert ts[|ts| - 1] == Fib(|ts| + 1);
      FibMonotone(|us| + 2, |ts| + 1);
      assert false;
    }
  }

  /**
    FibTerms(n) is exactly the run of Fibonacci numbers described by
    IsFibRunUpTo: the emitted terms are Fib(2), Fib(3), ..., every one is at
    most n, and the next Fibonacci number exceeds n.
  */
  lemma FibTermsCharacterised(n: int, ts: seq<int>)
    ensures IsFibRunUpTo(ts, n) <==> ts == FibTerms(n)
  {
    TermsFromShape(2, n);
    var fs := FibTerms(n);
    if |fs| > 0 {
      assert fs[|fs| - 1] == Fib(2 + (|fs| - 1));
    }
    assert IsFibRunUpTo(fs, n);
    if IsFibRunUpTo(ts, n) {
      FibRunUnique(ts, fs, n);
    }
  }

  /** Every emitted term is at most n, and the terms strictly increase. */
  lemma FibTermsBoundedIncreasing(n: int)
    ensures forall i :: 0 <= i < |FibTerms(n)| ==> 1 <= FibTerms(n)[i] <= n
    ensures forall i, j :: 0 <= i < j < |FibTerms(n)| ==> FibTerms(n)[i] < FibTerms(n)[j]
  {
    var ts := FibTerms(n);
    FibTermsCharacterised(n, ts);
    forall i | 0 <= i < |ts|
      ensures 1 <= ts[i] <= n
    {
      FibPositive(i + 2);
      FibMonotone(i + 2, |ts| + 1);
    }
    forall i, j | 0 <= i < j < |ts|
      ensures ts[i] < ts[j]
    {
      FibStrictlyIncreasing(i + 2, j + 2);
    }
  }

  /** A value is emitted exactly when it is a Fibonacci number (of index 2 or more) not above n. */
  lemma FibTermsMembership(n: int, v: int)
    ensures v in FibTerms(n) <==> v <= n && exists k: nat :: k >= 2 && Fib(k) == v
  {
    var ts := FibTerms(n);
    FibTermsCharacterised(n, ts);
    if v in ts {
      var i :| 0 <= i < |ts| && ts[i] == v;
      FibMonotone(i + 2, |ts| + 1);
      assert Fib(i + 2) == v;
    }
    if v <= n && exists k: nat :: k >= 2 && Fib(k) == v {
      var k: nat :| k >= 2 && Fib(k) == v;
      if k > |ts| + 1 {
        FibMonotone(|ts| + 2, k);
        assert false;
      }
      assert ts[k - 2] == v;
    }
  }

  /** The run is empty exactly when n < 1; otherwise it starts with a single 1. */
  lemma FibTermsStart(n: int)
    ensures FibTerms(n) == [] <==> n < 1
    ensures n >= 1 ==> FibTerms(n)[0] == 1 && (|FibTerms(n)| > 1 ==> FibTerms(n)[1] == 2)
  {
    FibTermsCharacterised(n, FibTerms(n));
  }

  // ---------------------------------------------------------------------------
  // The writes, as a specification
  // ---------------------------------------------------------------------------

  /** The writes for a list of terms: each term, then ", " or, after the last one, a newline. */
  function Render(ts: seq<int>): (out: seq<Write>)
    ensures |out| == 2 * |ts|
  {
    if ts == [] then []
    else if |ts| == 1 then [Number(ts[0]), Newline]
    else [Number(ts[0]), Comma] + Render(ts[1..])
  }

  /** Closed form of Render: even positions hold the terms, odd positions the separators. */
  lemma {:induction false} RenderAt(ts: seq<int>, i: nat)
    requires i < 2 * |ts|
    ensures Render(ts)[i] ==
      if i % 2 == 0 then Number(ts[i / 2])
      else if i / 2 + 1 < |ts| then Comma
      else Newline
  {
    if |ts| > 1 && i >= 2 {
      RenderAt(ts[1..], i - 2);
    }
  }

  /**
    The separator rule: a non-empty output holds exactly one newline, as its
    last write, and a comma follows every term but the last.
  */
  lemma {:induction false} RenderSeparators(ts: seq<int>)
    ensures forall i :: 0 <= i < |Render(ts)| ==> (Render(ts)[i] == Newline <==> i == 2 * |ts| - 1)
    ensures forall i :: 0 <= i < |Render(ts)| ==> (Render(ts)[i] == Comma <==> i % 2 == 1 && i < 2 * |ts| - 1)
    ensures forall i :: 0 <= i < |ts| ==> Render(ts)[2 * i] == Number(ts[i])
  {
    forall i | 0 <= i < |Render(ts)|
      ensures Render(ts)[i] == Newline <==> i == 2 * |ts| - 1
      ensures Render(ts)[i] == Comma <==> i % 2 == 1 && i < 2 * |ts| - 1
    {
      RenderAt(ts, i);
    }
    forall i | 0 <= i < |ts|
      ensures Render(ts)[2 * i] == Number(ts[i])
    {
      RenderAt(ts, 2 * i);
    }
  }

  /** The writes for a run that goes on: every term followed by ", ". */
  ghost function Open(ts: seq<int>): seq<Write>
  {
    if ts == [] then [] else [Number(ts[0]), Comma] + Open(ts[1..])
  }

  /** A run that goes on with one more term writes the term and ", ". */
  lemma {:induction false} OpenSnoc(ts: seq<int>, x: int)
    ensures Open(ts + [x]) == Open(ts) + [Number(x), Comma]
  {
    if ts != [] {
      assert (ts + [x])[1..] == ts[1..] + [x];
      OpenSnoc(ts[1..], x);
    }
  }

  /** Closing a run that went on with one last term and a newline gives Render. */
  lemma {:induction false} RenderSnoc(ts: seq<int>, x: int)
    ensures Render(ts + [x]) == Open(ts) + [Number(x), Newline]
  {
    if ts != [] {
      assert (ts + [x])[1..] == ts[1..] + [x];
      RenderSnoc(ts[1..], x);
    }
  }

  /** Worked examples: bounds 10 and 1, and a bound below 1. */
  lemma Examples()
    ensures FibTerms(10) == [1, 2, 3, 5, 8]
    ensures Render(FibTerms(10)) ==
      [Number(1), Comma, Number(2), Comma, Number(3), Comma, Number(5), Comma, Number(8), Newline]
    ensures Render(FibTerms(1)) == [Number(1), Newline]
    ensures Render(FibTerms(0)) == []
  {
  }

  // ---------------------------------------------------------------------------
  // The program
  // ---------------------------------------------------------------------------

  /**
    fibonacci(n): starting from the pair (0, 1), add the larger of p and q
    into the smaller, write the new value, then ", " if the loop goes on or a
    newline if it stops.
  */
  method Fibonacci(n: int) returns (out: seq<Write>)
    ensures out == Render(FibTerms(n))
  {
    var p, q := 0, 1;
    out := [];
    // {p, q} = {Fib(k-1), Fib(k)}; p holds the larger one when k is even.
    ghost var k: nat := 1;
    ghost var emitted: seq<int> := [];
    while p + q <= n
      invariant k >= 1
      invariant if k % 2 == 1 then p == Fib(k - 1) && q == Fib(k) else p == Fib(k) && q == Fib(k - 1)
      invariant |emitted| == k - 1
      invariant forall i :: 0 <= i < |emitted| ==> emitted[i] == Fib(i + 2)
      invariant k >= 2 ==> emitted[k - 2] == (if p < q then q else p) <= n
      invariant p + q <= n ==> out == Open(emitted)
      invariant n < p + q ==> out == Render(emitted)
      decreases n - (p + q)
    {
      // Fib(k-1) <= Fib(k), strictly once k >= 3, so the branch below adds the
      // larger value into the smaller one and the new value is Fib(k+1).
      if k >= 3 { FibStrictlyIncreasing(k - 1, k); }
      ghost var before := emitted;
      if p < q {
        p := p + q;
        out := out + [Number(p)];
        emitted := emitted + [p];
      } else {
        q := q + p;
        out := out + [Number(q)];
        emitted := emitted + [q];
      }
      k := k + 1;
      if p + q <= n {
        out := out + [Comma];
        OpenSnoc(before, emitted[k - 2]);
      } else {
        out := out + [Newline];
        RenderSnoc(before, emitted[k - 2]);
      }
    }
    assert IsFibRunUpTo(emitted, n);
    FibTermsCharacterised(n, emitted);
  }

  /**
    main, once the bound has been read: a bound below 1 gets the "too low"
    message and no sequence; any other bound runs fibonacci(n).
  */
  method Run(n: int) returns (out: seq<Write>)
    ensures n < 1 ==> out == [TooLow]
    ensures n >= 1 ==> out == Render(FibTerms(n)) && out[0] == Number(1) && out[|out| - 1] == Newline
  {
    if n < 1 {
      out := [TooLow];
    } else {
      out := Fibonacci(n);
      FibTermsStart(n);
      RenderAt(FibTerms(n), 0);
      RenderAt(FibTerms(n), 2 * |FibTerms(n)| - 1);
    }
  }
}
