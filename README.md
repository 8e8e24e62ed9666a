# cli-utils in Dafny

A Dafny model of the utility code of the `cli-utils` example of the Applied
Rust course. It has three parts.

- **Arithmetic.** The `my_library` crate provides `add`, `factorial`, `gcd` and
  `is_prime` on `u64`. The `cli_utils::math_utils` module has its own copies
  of `gcd` and `is_prime`, written with the same algorithms. Both copies of
  `gcd` loop until `b` is zero, replacing `(a, b)` by `(b, a % b)`. Both copies
  of `is_prime` do trial division up to the square root. `factorial` is
  `(1..=n).product()`.
- **ANSI colouring** (`cli_utils::colors`). `red`, `green`, `blue`, `bold`
  and `reset` wrap a text between a fixed escape sequence and the reset
  sequence `ESC[0m`. `ColorString::paint` and `ColorString::reset` overwrite
  the `colorized` field in place.
- **Logging options** (`cli_utils::config`). This is the `Logging` record
  with its default constructor, getters and setters, and the `LogLevel` and
  `LogOutput` enums.

Files and modules:

- `machine.dfy` (`Machine`) defines `u64`. It also defines the build profile
  (`Debug` panics on overflow, `Release` wraps modulo 2^64) and the
  `Value`/`Panic` outcome of an expression.
- `number_theory.dfy` (`NumberTheory`) holds the mathematical definitions
  both arithmetic files are proved against, with their lemmas. These are
  divisibility, greatest common divisor, primality, Euclid's recursion,
  integer square root and trial division.
- `my_library.dfy` (`MyLibrary`) models `my_library/src/lib.rs`.
- `math_utils.dfy` (`MathUtils`) models `src/math_utils.rs`.
- `colors.dfy` (`Colors`) models `src/colors.rs`. The `Color` enum
  (colors.rs:62-67) is the datatype `Colors.Color`.
- `config.dfy` (`Config`) models `src/config.rs`. The `LogLevel` enum
  (config.rs:24-29) is the datatype `Config.LogLevel`, and the `LogOutput`
  enum (config.rs:50-54) is the datatype `Config.LogOutput`.

Overflow in `add` and `factorial` does not become a precondition. Each
takes the build profile as a parameter. The result is `Panic` where a
checked build panics, and the wrapped value where a release build wraps.
`factorial` is a fold of `*` over `1..=n`. It is proved to panic in a debug
build exactly when `n > 20`. In a release build it is proved always to
yield a value, and that value is `n!` modulo 2^64.

In the code, the `gcd` loop returns `a` at once when `b == 0`, so
`gcd(n, 0) == n` holds because the loop body never runs.
`gcd(0, 0)` returns 0. The model keeps that value: 0 is the greatest common
divisor of 0 and 0, because every number divides 0.

## Model

| member | source | states |
|---|---|---|
| `NumberTheory.Euclid` | examples/cli-utils/my_library/src/lib.rs:32-39 | Euclid's recursion (a, b) to (b, a % b) yields a greatest common divisor: g divides a and b, and every common divisor divides g |
| `NumberTheory.GcdStep` | examples/cli-utils/src/math_utils.rs:24-28 | For b > 0 the pairs (a, b) and (b, a % b) have the same common divisors, so each loop iteration keeps the gcd |
| `NumberTheory.GcdUnique` | examples/cli-utils/my_library/src/lib.rs:25 | Two greatest common divisors of the same pair are equal, so "the" gcd is well defined |
| `NumberTheory.GcdCommutative` | examples/cli-utils/src/math_utils.rs:12-30 | gcd(a, b) == gcd(b, a) for all a, b |
| `NumberTheory.GcdWithZero` | examples/cli-utils/src/math_utils.rs:20-21 | gcd(0, n) == n and gcd(n, 0) == n |
| `NumberTheory.GcdExamples` | examples/cli-utils/my_library/src/lib.rs:88-93 | gcd(48, 18) == 6, gcd(56, 98) == 14, gcd(0, 5) == 5, gcd(5, 0) == 5 |
| `NumberTheory.FloorSqrt` | examples/cli-utils/my_library/src/lib.rs:55-56 | The limit of trial division is the integer square root r, with r*r <= n < (r+1)*(r+1); for n >= 2 it satisfies 1 <= r < n |
| `NumberTheory.FloorSqrtUnique` | examples/cli-utils/src/math_utils.rs:51 | Any r with r*r <= n < (r+1)*(r+1) is the limit, so the limit is determined by n alone |
| `NumberTheory.TrialDivisionCorrect` | examples/cli-utils/my_library/src/lib.rs:41-62 | "n > 1 and no i in 2..=floor(sqrt n) divides n" holds exactly when n is prime (only 1 and n divide it), in both directions |
| `NumberTheory.PrimeExamples` | examples/cli-utils/my_library/src/lib.rs:95-103 | 0, 1, 10 and 98 are not prime; 2, 7 and 97 are |
| `MyLibrary.Add` | examples/cli-utils/my_library/src/lib.rs:6-9 | The sum modulo 2^64; a panic exactly when the build is Debug and the true sum exceeds 2^64 - 1 |
| `MyLibrary.AddExact` | examples/cli-utils/my_library/src/lib.rs:7-9 | When a + b < 2^64, add returns exactly a + b in either build |
| `MyLibrary.AddCommutative` | examples/cli-utils/my_library/src/lib.rs:70-72 | add(a, b) == add(b, a), panics included |
| `MyLibrary.Times` | examples/cli-utils/my_library/src/lib.rs:22 | The u64 `*` that product applies: the product modulo 2^64, or a panic exactly when a Debug build overflows |
| `MyLibrary.Factorial` | examples/cli-utils/my_library/src/lib.rs:11-23 | The product over 1..=n. In Debug it is a value exactly when n <= 20, and then it equals n!. In Release it is always a value. In either build any value equals n! modulo 2^64 |
| `MyLibrary.FactBoundary` | examples/cli-utils/my_library/src/lib.rs:13-14 | 20! == 2432902008176640000 fits in u64 and 21! == 51090942171709440000 does not |
| `MyLibrary.FactorialExamples` | examples/cli-utils/my_library/src/lib.rs:74-86 | factorial(0) == 1, factorial(5) == 120, factorial(20) == 2432902008176640000, and factorial(21) panics in a debug build |
| `MyLibrary.Gcd` | examples/cli-utils/my_library/src/lib.rs:25-39 | The loop returns Euclid(a, b), which is the greatest common divisor of a and b |
| `MyLibrary.IsPrime` | examples/cli-utils/my_library/src/lib.rs:41-63 | False for n <= 1; true exactly when trial division finds no divisor; true exactly when n is prime |
| `MathUtils.Gcd` | examples/cli-utils/src/math_utils.rs:12-30 | Euclid(a, b), a greatest common divisor; returns a when b == 0 and b when a == 0 |
| `MathUtils.IsPrime` | examples/cli-utils/src/math_utils.rs:32-58 | False for 0 and 1; true exactly when trial division finds no divisor; true exactly when n is prime |
| `Colors.WrapsIsConcatenation` | examples/cli-utils/src/colors.rs:14-16 | Stripping prefix and ESC[0m recovers the text exactly when the output is prefix + text + ESC[0m |
| `Colors.Red` | examples/cli-utils/src/colors.rs:14-16 | Output is ESC[31m, then the text, then ESC[0m; its length is 5 + the text's length + 4 |
| `Colors.Green` | examples/cli-utils/src/colors.rs:23-25 | Output is ESC[32m, then the text, then ESC[0m |
| `Colors.Blue` | examples/cli-utils/src/colors.rs:32-34 | Output is ESC[34m, then the text, then ESC[0m |
| `Colors.Bold` | examples/cli-utils/src/colors.rs:41-43 | Output is ESC[1m, then the text, then ESC[0m |
| `Colors.Reset` | examples/cli-utils/src/colors.rs:50-52 | Output is ESC[0m, then the text, then ESC[0m |
| `Colors.Painted` | examples/cli-utils/src/colors.rs:91-98 | The wrapper paint selects for a colour puts that colour's escape code before the text and ESC[0m after it |
| `Colors.Strip` | examples/cli-utils/src/colors.rs:15 | Removing a prefix and the reset suffix succeeds exactly when both are present, and the result re-wraps to the input |
| `Colors.StripPainted` | examples/cli-utils/src/colors.rs:14-52 | Stripping the colour's code and ESC[0m from any painted or reset output gives back the text; the painted length is the code's length + the text's length + 4 |
| `Colors.PaintedDistinct` | examples/cli-utils/src/colors.rs:62-67 | For the same text, different colours give different outputs, and reset's output differs from every colour's |
| `Colors.PaintedExamples` | examples/cli-utils/tests/test_colors.rs:8-53 | Painting "Red", "Green", "Blue", "Bold" in their colours gives exactly the strings the colour tests expect |
| `Colors.ColorString.constructor` | examples/cli-utils/src/colors.rs:82-87 | The struct literal sets all four fields as given |
| `Colors.ColorString.Paint` | examples/cli-utils/src/colors.rs:91-98 | Afterwards colorized is the colour's wrapper applied to the text; color, text and opacity are unchanged |
| `Colors.ColorString.Reset` | examples/cli-utils/src/colors.rs:100-102 | Afterwards colorized is reset(text) whatever the colour; color, text and opacity are unchanged |
| `Colors.PaintTwice` | examples/cli-utils/src/colors.rs:91-98 | Painting twice leaves the same colorized as painting once |
| `Config.EqualityExamples` | examples/cli-utils/src/config.rs:17-54 | Info == Info, Info != Debug, File("app.log") == File("app.log") != Stdout, and File equality compares the path |
| `Config.Logging.constructor` | examples/cli-utils/src/config.rs:77-83 | new() is disabled, at level Info, writing to Stdout |
| `Config.Logging.Init` | examples/cli-utils/src/config.rs:65-69 | The struct literal sets the three fields as given |
| `Config.Logging.GetEnabled` | examples/cli-utils/src/config.rs:85-87 | Returns enabled and changes nothing |
| `Config.Logging.SetEnabled` | examples/cli-utils/src/config.rs:89-91 | enabled becomes the argument; level and destination are unchanged |
| `Config.Logging.GetLevel` | examples/cli-utils/src/config.rs:93-95 | Returns level and changes nothing |
| `Config.Logging.SetLevel` | examples/cli-utils/src/config.rs:97-99 | level becomes the argument; enabled and destination are unchanged |
| `Config.Logging.GetDestination` | examples/cli-utils/src/config.rs:101-103 | Returns destination and changes nothing |
| `Config.Logging.SetDestination` | examples/cli-utils/src/config.rs:105-107 | destination becomes the argument; enabled and level are unchanged |

## Left out

- The floating-point square root `(n as f64).sqrt() as u64` in both `is_prime` copies becomes the integer square root. For the largest `u64` values, float rounding can make the computed limit differ from it. That difference is not modelled.
- `opacity: f32` is kept as an inert `real` field. It exists only so the model can say that `paint` and `reset` leave it unchanged. Nothing reads it.
- The `string` field of `ColorString` is called `text`, because `string` is a reserved word in Dafny.
- The getters `get_level` and `get_destination` return references in Rust. In the model they return the values. Borrowing and ownership are not modelled.
- The overflow behaviour of `add` and `factorial` is chosen by a `Build` parameter. Rust chooses it when compiling (`overflow-checks`). A panic is an outcome value, not an unwinding.
- The derived `Debug` formatting of `LogLevel` (`format!("{:?}")`) is derived Rust code, not logic of this repository.
- `main.rs` only prints results to standard output.
- `read_stdin`, imported by the colour tests, is I/O and is not part of this model.
