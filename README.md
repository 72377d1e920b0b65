# Fibonacci printer, modelled in Dafny

The repository's console program `go-exercises/fibonacci.go` reads a bound `n`.
When `n < 1` it prints a "too low" message. Otherwise `fibonacci(n)` keeps a pair
`(p, q)`, starting at `(0, 1)`. On each step it adds the larger value into the
smaller one and prints the new value. Then it prints `", "` if `p + q` is still at
most `n`, or a newline if not. The loop runs while `p + q <= n`.

`fibonacci.dfy` (module `FibonacciPrinter`) models this:

- A `Write` is one call into `fmt`: `Number(v)` for `Printf("%d", v)`,
  `Text(s)` for `Printf(s)` and `Line(s)` for `Println(s)`. The method
  `Fibonacci` returns the writes in the order the loop makes them. It is the
  source's loop, with the same guard, the same `p < q` branch and the same
  choice of separator.
- `Fib` is the Fibonacci function. `FibTerms(n)` is the run `Fib(2), Fib(3), …`
  up to the last one not above `n`. `Render` turns a list of terms into writes:
  each term, then a comma, or a newline after the last one.
- `Fibonacci` is proved to return `Render(FibTerms(n))`. The loop invariant says
  that `{p, q}` is `{Fib(k-1), Fib(k)}`, that the larger of the two is the last
  term written, and that the last term written is at most `n`. That every
  term is at most `n` is the lemma `FibTermsBoundedIncreasing`. The loop's
  termination measure is `n - (p + q)`.
- Lemmas describe `FibTerms` and `Render` independently. They show that the terms
  are exactly the Fibonacci numbers from index 2 that are at most `n`, that they
  strictly increase, and that the one after the last term is above `n`. They also
  show that a non-empty output has exactly one newline, at the end; for `n < 1`
  the output is empty.
- `Run` models `main` once the bound has been read.

For `n = 10` the program prints `1, 2, 3, 5, 8`, with a single 1: the first
step `(0,1) → (1,1)` prints 1 and the second `(1,1) → (1,2)` prints 2
(lemma `Examples`).

## Model

| member | source | states |
|---|---|---|
| `FibonacciPrinter.Fibonacci` | go-exercises/fibonacci.go:6-25 | The writes are exactly `Render(FibTerms(n))`: the terms Fib(2), Fib(3), … not above `n`, with ", " between terms and one newline after the last; nothing is written for `n < 1`. Its loop invariant keeps `{p, q} = {Fib(k-1), Fib(k)}` with the larger one equal to the last term written and at most `n`. It terminates by the measure `n - (p + q)`. |
| `FibonacciPrinter.Run` | go-exercises/fibonacci.go:36-40 | For `n < 1` the only write is the "too low" message line, so the sequence is never generated. For `n >= 1` the writes are those of `fibonacci(n)`, starting with the term 1 and ending with the newline. |
| `FibonacciPrinter.FibTermsCharacterised` | go-exercises/fibonacci.go:7-16 | A list equals `FibTerms(n)` if and only if its i-th element is Fib(i+2), its last element is at most `n`, and the next Fibonacci number is above `n`. This matches the stop condition `p + q > n` on loop exit. |
| `FibonacciPrinter.FibTermsBoundedIncreasing` | go-exercises/fibonacci.go:10-16 | Every emitted term is between 1 and `n`, and the terms strictly increase. |
| `FibonacciPrinter.FibTermsMembership` | go-exercises/fibonacci.go:7-16 | A value is emitted if and only if it is at most `n` and equals Fib(k) for some k ≥ 2. |
| `FibonacciPrinter.FibTermsStart` | go-exercises/fibonacci.go:7-13 | Nothing is emitted if and only if `n < 1`. Otherwise the first term is 1 and the second, if present, is 2, so 1 appears only once. |
| `FibonacciPrinter.FibStrictlyIncreasing` | go-exercises/fibonacci.go:10-16 | From index 2 on, Fib is strictly increasing, so `p + q` grows on every step. The loop uses this for termination and to decide which branch of `p < q` is taken. |
| `FibonacciPrinter.FibPositive` | go-exercises/fibonacci.go:11-16 | Fib(k) ≥ 1 for k ≥ 1, so every step adds a positive amount. |
| `FibonacciPrinter.RenderAt` | go-exercises/fibonacci.go:13-23 | The output's even positions hold the terms in order. Its odd positions hold ", " after every term except the last, and a newline after the last. |
| `FibonacciPrinter.RenderSeparators` | go-exercises/fibonacci.go:19-23 | In a non-empty output a newline is written exactly once, as the last write. A comma is written exactly after each term that is not the last. |
| `FibonacciPrinter.RenderSnoc` | go-exercises/fibonacci.go:19-23 | Writing one more term and then the newline, after a run that went on, gives the complete rendering of the longer run. |
| `FibonacciPrinter.OpenSnoc` | go-exercises/fibonacci.go:19-20 | Writing one more term and then ", " extends a run that goes on. |
| `FibonacciPrinter.Examples` | go-exercises/fibonacci.go:6-25 | For `n = 10` the terms are `[1, 2, 3, 5, 8]` and the writes are `1, 2, 3, 5, 8` and a newline. For `n = 1` the writes are `1` and a newline. For `n = 0`, `fibonacci` writes nothing. |

## Left out

- Reading the bound: the prompt, `fmt.Scanf` and its error branch (lines 29-35). `Run` takes the parsed bound as a parameter.
- Character-level output. Each `Printf`/`Println` call is one `Write` value; the decimal formatting of `%d` and the terminal's bytes are not modelled.
- Go's fixed-width `int` (32 or 64 bits, depending on the platform). The model uses unbounded integers. With a 64-bit `int` and `n ≥ Fib(92) = 7540113804746346429`, or a 32-bit `int` and `n ≥ Fib(46) = 1836311903`, the sum `p + q` after the last true term wraps around to a negative value. The program then writes `", "` instead of the newline and goes on printing wrapped values; the model ends with the newline.
- `go-complete-guide/assignments/shapes.go`. It is floating-point area arithmetic behind an interface, followed by printing, and it is unrelated to the Fibonacci program.
