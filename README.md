# rust-syntax-revision: the parallel minimum, the `Numberinator` struct and the digit reversal

The repository is a tutorial program. Almost all of it prints text or calls into libraries. It does compute three things of its own, all of them in `src/main.rs`, and this project models those three and proves properties of them:

- **`parallel_min`**: a divide-and-conquer minimum over an `i32` slice. A slice of at most `THRESHOLD = 10` elements is scanned with `iter().min().unwrap()`. A longer slice is cut at `len / 2`. The two halves are handed to `rayon::join`, and the two results are combined with `min`. The two closures given to `join` are independent and have no side effects, so the model evaluates them one after the other (module `ParallelMin`, file `parallel_min.dfy`).
- **`Numberinator`**: a struct with an `i32` number and a `String` name. It has a constructor and an in-place `increment`. The model is a class (module `Structs`, file `numberinator.dfy`). `StructsDemo` models the demonstration in `main`: one increment, then five more in a loop.
- **The signed digit reversal** at the start of `main`. It takes the sign of `x`, formats `|x|` in decimal and reverses the characters. It then parses the result as `i32`, gives 0 if the parse fails, and puts the sign back. The model lifts this into a function, `ReverseInt` (module `DigitReversal`, file `digit_reversal.dfy`).

Rust's `i32` is the newtype `Int32.i32`. Every arithmetic result stored in one has to be proved in range, just as a debug build panics on overflow. `Options.Option` stands for Rust's `Option`. `Sequences.Reverse` is the reversal done by `rev()`, both on the characters of a string and on the range `1..=100`.

Main results:
- `ParallelMinOf` returns an element of its input that is no greater than any other element. So it equals the sequential scan (`ParallelIsSequential`). Cutting the input at any point gives the same result (`SplitAnywhere`).
- The base-case chunks of the recursion partition the input exactly. Each chunk has between 1 and `THRESHOLD` elements (`LeavesPartition`). There is one more chunk than there are splits (`LeafCount`). The result is the `min` of the base-case scans of the chunks (`ParallelMinOverLeaves`).
- `ReverseInt` is the sign of `x` times the arithmetic digit reversal of `|x|`, or 0 when that reversal does not fit in `i32` (`ReverseIntMeaning`). Applying it twice gives `x` back when nothing overflows and `|x|` has no trailing zero (`ReverseIntTwice`).
- Formatting an `i32` and parsing the text back gives the same `i32` (`DisplayParse`).

An empty input is a caller error, not an error value. In the code, `parallel_min` on an empty slice reaches `unwrap()` on `None` and panics. So `ParallelMinOf` and `SequentialMin` require a non-empty input. `IterMin`, which models `iter().min()`, still returns `None` on an empty slice.

## Model

| member | source | states |
|---|---|---|
| `Int32.Min` | src/main.rs:115 | `Ord::min`: the result is no greater than either argument and is one of them |
| `Int32.Abs` | src/main.rs:138 | `i32::abs` for every value except `i32::MIN`, which overflows: the result is non-negative and is `x` or `-x` |
| `ParallelMin.MinFold` | src/main.rs:104 | the left-to-right reduction of `Iterator::min` ends at a value that is no greater than the start value or any element, and that is the start value or one of the elements |
| `ParallelMin.IterMin` | src/main.rs:104 | `iter().min()` is `None` exactly when the slice is empty; otherwise it holds an element that is no greater than any element |
| `ParallelMin.SequentialMin` | src/main.rs:102-104 | `iter().min().unwrap()` on a non-empty slice (the empty slice panics): the minimum of the slice |
| `ParallelMin.SplitAt` | src/main.rs:107 | `split_at(mid)` with `mid <= len`: the two halves concatenate to the slice, and the left half has `mid` elements |
| `ParallelMin.SplitHalves` | src/main.rs:106-107 | for a slice longer than `THRESHOLD`, the cut at `len / 2` gives two halves that concatenate to the slice. Both are non-empty and strictly shorter, which is why the recursion terminates, and each has at least `THRESHOLD / 2` elements |
| `ParallelMin.ParallelMinOf` | src/main.rs:99-117 | for every non-empty slice, the result is an element of the slice and is no greater than any element |
| `ParallelMin.ParallelIsSequential` | src/main.rs:99-117 | the divide-and-conquer result equals the sequential scan of the whole slice |
| `ParallelMin.SplitAnywhere` | src/main.rs:109-115 | cutting the slice at any interior point and taking `min` of the two minima gives the minimum of the whole, so the result does not depend on where the cut falls |
| `ParallelMin.SmallIsScan` | src/main.rs:100-104 | a slice of 1 to `THRESHOLD` elements is not split: the result is the direct scan, there is exactly one chunk, and there are no splits |
| `ParallelMin.LeavesPartition` | src/main.rs:102-113 | the base-case chunks concatenate to exactly the input, with no element skipped or counted twice. Every chunk has 1 to `THRESHOLD` elements, and at least `THRESHOLD / 2` when the input was split |
| `ParallelMin.ParallelMinOverLeaves` | src/main.rs:99-117 | every base-case chunk is non-empty, and the result is the `min` of the base-case scans of all the chunks, taken in order |
| `ParallelMin.LeafCount` | src/main.rs:106-113 | the number of base-case chunks is one more than the number of splits |
| `ParallelMin.ThresholdBoundary` | src/main.rs:100-107 | length `THRESHOLD` gives no split. Lengths `THRESHOLD + 1` and 12 give exactly one split, and length 100 gives 15 |
| `ParallelMin.CountdownAt` | src/main.rs:395 | `(1..=n).rev().collect()`, built as the reversal of the ascending range `1..=n`: it has `n` elements and element `i` is `n - i` |
| `ParallelMin.CountdownMin` | src/main.rs:395-397 | on 100, 99, ..., 1 the result is 1 |
| `ParallelMin.SequentialMinAt` | src/main.rs:104 | an element that is no greater than any other element is what the scan returns |
| `ParallelMin.OneSplit` | src/main.rs:102-115 | a slice of `THRESHOLD + 1` to `2 * THRESHOLD` elements is split exactly once. The result is `min` of the direct scans of the two halves |
| `ParallelMin.TwelveElements` | src/main.rs:99-117 | on [100, 2, 37, -5, 64, 0, 88, 13, 45, -20, 7, 99] there is one split. The left half has minimum -5, the right half -20, and the result is -20 |
| `ParallelMin.Singleton` | src/main.rs:102-104 | a one-element slice gives that element, with no split |
| `DigitReversal.ToDecimal` | src/main.rs:138 | `to_string` of a non-negative number is a non-empty string of decimal digits. It has no leading zero unless the number is 0, and its last digit is the number modulo 10 |
| `Sequences.Reverse` | src/main.rs:139 | `chars().rev().collect()`, and `rev()` over the range at line 395: the same length, with element `i` equal to element `len - 1 - i` of the input |
| `Sequences.ReverseReverse` | src/main.rs:139 | reversing twice gives the sequence back |
| `DigitReversal.Accumulate` | src/main.rs:141 | the digit loop of `parse` never decreases its accumulator. On a non-empty string it ends at least at `acc * 10` plus the first digit |
| `DigitReversal.ParseI32` | src/main.rs:141-145 | `parse::<i32>` fails on the empty string, on a lone sign and on any string that is not digits after an optional `+` or `-`. On digits, or `+` then digits, it succeeds exactly when the value fits in `i32` and yields it. On `-` then digits it succeeds exactly when the value is at most `2^31`, and yields its negation |
| `DigitReversal.Display` | src/main.rs:136 | `println!("{}", x)` formats an `i32` as a `-` exactly when it is negative, followed by its decimal digits with no leading zero, so 0 is never written `-0` |
| `DigitReversal.DisplayParse` | src/main.rs:136-141 | formatting any `i32` and parsing the text gives the same value back. For a negative value this goes through the `-` branch of `parse`, which the reversal itself never reaches because it parses digits only |
| `DigitReversal.ToDecimalValue` | src/main.rs:138-141 | parsing the digits printed for `n` gives `n` |
| `DigitReversal.CanonicalValue` | src/main.rs:138-141 | printing the value of a digit string with no leading zero gives that string back |
| `DigitReversal.ReversedDigitsValue` | src/main.rs:138-141 | reversing the printed digits of `n` gives only digits, and parsing them is the arithmetic digit reversal of `n` |
| `DigitReversal.ParseReversedDigits` | src/main.rs:138-145 | parsing the reversed digits of `n` succeeds exactly when the arithmetic reversal of `n` fits in `i32`, and then yields that reversal |
| `DigitReversal.ReverseNumberTwice` | src/main.rs:138-141 | the digit reversal of a number that does not end in 0 is at least 1, and reversing it again gives the number back |
| `DigitReversal.Sign` | src/main.rs:137 | the sign is -1 or 1, and it is negative exactly when `x` is |
| `DigitReversal.ReverseInt` | src/main.rs:134-146 | for every `x` other than `i32::MIN`, the result is 0 or has the same sign as `x` |
| `DigitReversal.ReverseIntMeaning` | src/main.rs:137-145 | if the digit reversal of `abs(x)` fits in `i32`, the result is the sign of `x` times that reversal. Otherwise the parse fails and the result is 0 |
| `DigitReversal.ReverseIntTwice` | src/main.rs:137-145 | when `abs(x)` does not end in 0 and its reversal fits, the result is neither 0 nor `i32::MIN`, and applying the reversal again gives `x` |
| `DigitReversal.TrailingZeroDropped` | src/main.rs:137-145 | for a multiple of 10, the result is the same as for `x / 10`: the trailing zero becomes a leading zero of the reversed string, and the parse drops it |
| `DigitReversal.TrailingZeroLost` | src/main.rs:137-145 | 120 becomes 21: a trailing zero becomes a leading zero, which the parse drops |
| `DigitReversal.OverflowingReversal` | src/main.rs:141 | the reversal of 1000000009 is 9000000001, which is more than `i32::MAX` |
| `DigitReversal.OverflowFallsBack` | src/main.rs:141-145 | for 1000000009 and -1000000009 the parse overflows and the result is 0 |
| `DigitReversal.MainExample` | src/main.rs:134-146 | `x = 123 * -1` has sign -1 and reversed string "321", and the result is -321 |
| `Structs.Numberinator.constructor` | src/main.rs:82-85 | `new(number, name)` stores exactly the number and the name given |
| `Structs.Numberinator.Increment` | src/main.rs:92-95 | requires `number < i32::MAX` (overflow panics). Raises `number` by exactly 1 and leaves `name` unchanged |
| `Structs.StructsDemo` | src/main.rs:199-219 | `new(42, "Initially 42.")`, one increment and five more in the loop leave number 48 and the name unchanged |

## Left out

- `load` (src/main.rs:60-64) and the file-loading demonstrations: filesystem I/O only.
- `Numberinator::display` and every other `println!`: console output; the model returns values instead of printing them. The text that `println!` makes from an `i32` is modelled by `Display`; writing it out is not.
- `task` and the `thread::spawn` / `join` demonstration: random sleeps and printing. The scheduling done by `rayon::join` is not modelled either; its two closures are evaluated in sequence, which gives the same value because neither has side effects.
- The rayon collection demonstrations (`par_iter().map`, `par_sort_unstable`, `into_par_iter().sum` / `max`): direct calls into the library with no logic of their own.
- The random-number and `ndarray` demonstrations, the array, vector and string demonstrations, and the `Event` enum, which has no behaviour: they only exercise the standard library.
- src/plotting.rs, src/fitting.rs, other-examples/async-main.rs and other-examples/axum-main.rs: floating-point numerics, plotting, clustering and regression libraries, network I/O and a web server. None of these files is part of this model.
- `DigitReversal.ReverseInt`: `x = i32::MIN` is excluded by a precondition rather than modelled as the panic of `i32::MIN.abs()`.
- `DigitReversal.ParseI32`: reports only success or failure. The source matches `Err(_)`, so the error kinds of `ParseIntError` (empty, invalid digit, overflow) are not distinguished.
- `ParallelMin.ParallelMinOf`: an empty slice is excluded by a precondition, because the source panics there; no error value is returned.
