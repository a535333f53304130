# dice — a Dafny model

`dice` is a small command-line dice roller. It takes a roll in `NdM` notation:
N dice (the *repetitions*), each with M *faces*. It prints either the sum of the
N rolls or every roll in turn. This project models its core, `src/main.rs`, in
Dafny and proves properties of that model:

- `DiceRoll`, the roll specification, and its parser (`FromStr`). The parser
  splits on every `d`, demands exactly two pieces, parses each piece as a `u64`
  with the standard library's rules, and refuses zero faces.
- The rendering of a roll (`Display`): repetitions, `d`, faces.
- The two output modes. Sum mode adds the rolls. Verbose mode writes each roll
  followed by a space. The random generator is replaced by a sequence of rolls
  given as input. Each roll lies in [1, faces], the range `gen_range(1, faces + 1)`
  draws from.

Modules:

- `Wrappers` (`wrappers.dfy`): the `Result` type.
- `Text` (`text.dfy`): `Split`, with the semantics of Rust's `str::split(char)`, and its laws.
- `Decimal` (`decimal.dfy`): the `u64` range; `ToDecimal`, the `Display` of an unsigned
  integer; `ParseU64`, a model of `u64::from_str`.
- `DiceNotation` (`dice_notation.dfy`): `DiceRoll`, `Parse`, `Render` and the round trip.
- `RollEngine` (`roll_engine.dfy`): `ProcessSum` and `ProcessVerbose` as loops over the
  injected rolls, proved against the functions `Total` and `Transcript`.

`ParseU64` follows the standard library's algorithm:

- The empty string is an `Empty` error.
- A lone `+` or `-` is an `InvalidDigit` error.
- One leading `+` is skipped. A `-` is never accepted.
- The digits are read from left to right. At each character, a non-digit is
  checked before overflow. So the first error in reading order is the one reported.

The program's own error is a `String`. Its text is library text, so the model
keeps only the error's kind: `InvalidFormat`, `BadNumber(kind)` or `InvalidFaces`.

Read loosely, `NdM` names two plain non-negative numerals. The code instead hands
each piece to `u64::from_str`, which also accepts a leading `+` and leading zeros,
and the model follows the code. `PlusSignNotReproduced` and
`LeadingZeroNotReproduced` show the effect: such inputs parse, but they do not
re-render as themselves.

## Model

| member | source | states |
|---|---|---|
| Text.Split | src/main.rs:36 | the pieces of `s.split('d')`; its own contract says only that there is at least one piece, and its meaning is carried by `SplitCount`, `SplitPiecesFree` and `SplitJoin` |
| Text.SplitCount | src/main.rs:36-37 | splitting on `d` gives one more piece than there are `d`s, so the two-piece test means exactly one `d` |
| Text.SplitPiecesFree | src/main.rs:36 | no piece of the split contains the separator |
| Text.SplitJoin | src/main.rs:36 | joining the pieces with the separator gives back the input: the split loses nothing |
| Decimal.ToDecimal | src/main.rs:54 | the rendering of a number is canonical decimal text (digits only, no sign, no leading zero) that denotes exactly that number |
| Decimal.CanonicalIsRendering | src/main.rs:54 | every canonical decimal text is the rendering of its own value, so the rendering is the only canonical text for a number |
| Decimal.AccumulateOutcome | src/main.rs:41-42 | the `u64` digit loop overflows exactly when the leading run of digits exceeds 2^64-1; otherwise it fails at a non-digit if there is one; otherwise it yields the value of the digits |
| Decimal.ParseU64 | src/main.rs:41-42 | a piece parses exactly when it is an optional `+` followed by one or more digits whose value fits in 64 bits, and the result is that value; the error is `Empty` exactly for the empty string, `PosOverflow` exactly when the leading digits exceed 2^64-1, and `InvalidDigit` otherwise |
| Decimal.DecimalRoundTrip | src/main.rs:41-42 | parsing the decimal rendering of any `u64` gives it back |
| DiceNotation.Parse | src/main.rs:35-49 | the format error occurs exactly when the input does not contain exactly one `d`; success occurs exactly when both pieces are `u64` literals and the faces value is non-zero, and then the fields are the two values and faces > 0; the zero-faces error occurs exactly when both pieces parse and faces is 0; a number error occurs exactly when a piece is not a literal, and the error reported is that of the repetitions piece when it is bad, otherwise that of the faces piece |
| DiceNotation.Render | src/main.rs:53-55 | the rendering splits on `d` into exactly two canonical decimal pieces, denoting repetitions and faces |
| DiceNotation.ParseRender | src/main.rs:35-55 | parsing the rendering of any roll with faces > 0 returns an equal roll |
| DiceNotation.RenderParse | src/main.rs:35-55 | a parsed text re-renders identically if and only if both of its pieces were canonical |
| DiceNotation.LeadingZeroNotReproduced | src/main.rs:41-54 | `"03d6"` parses to 3 dice of 6 faces, which render as something other than `"03d6"` |
| DiceNotation.PlusSignNotReproduced | src/main.rs:41-54 | `"+3d6"` parses to 3 dice of 6 faces, which render as something other than `"+3d6"` |
| DiceNotation.NoDelimiterExample | src/main.rs:36-39 | `"abc"` is a format error |
| DiceNotation.TwoDelimitersExample | src/main.rs:36-39 | `"3d4d5"` is a format error |
| DiceNotation.EmptyPieceExamples | src/main.rs:41-42 | `"d6"` and `"3d"` are empty-number errors |
| DiceNotation.RepetitionsErrorWinsExample | src/main.rs:41-42 | in `"xd"` both pieces are bad; the reported error is the repetitions piece's invalid digit, not the faces piece's empty number |
| DiceNotation.FacesErrorExample | src/main.rs:41-42 | in `"3dx"` only the faces piece is bad, and the reported error is its own invalid digit |
| DiceNotation.ZeroFacesExample | src/main.rs:44-48 | `"3d0"` is the zero-faces error |
| DiceNotation.ZeroRepetitionsExample | src/main.rs:41-45 | `"0d6"` is accepted as zero dice of six faces |
| RollEngine.TotalBounds | src/main.rs:70-73 | n rolls, each in [1, faces], sum to at least n and at most n * faces |
| RollEngine.TotalAppend | src/main.rs:70-73 | the total of two runs of rolls is the sum of their totals, so splitting the rolls across parallel workers does not change the sum |
| RollEngine.TotalOfOnes | src/main.rs:72-73 | with one-faced dice the sum equals the number of dice |
| RollEngine.TranscriptOfOnes | src/main.rs:84-87 | with one-faced dice the verbose output is `"1 "` repeated once per die |
| RollEngine.TranscriptTokens | src/main.rs:82-88 | splitting the verbose output on spaces gives each roll's decimal text in order, then one empty piece: no token is broken or merged |
| RollEngine.ProcessSum | src/main.rs:69-76 | the loop's sum is the total of the rolls and lies in [repetitions, repetitions * faces], so it is 0 for zero dice; the printed line is the sum's canonical decimal text followed by a newline |
| RollEngine.ProcessVerbose | src/main.rs:79-89 | the output is the transcript of the rolls, so it is empty for zero dice; it splits on spaces into one token per roll and a final empty piece, and each token parses back to its roll |

## Left out

- Command-line handling (`Arguments`, `main`, the `clap` derive, `--help`, `--version`,
  the exit status): this is library-driven wiring, not logic of the program.
- Randomness: `thread_rng()` and the uniform distribution of `gen_range` are not modelled.
  The rolls are an input sequence, and the model assumes only that each roll lies in [1, faces].
- Concurrency: `rayon`'s parallel iteration and the `Arc<Mutex<BufWriter>>` around
  standard output are modelled as one sequential loop. With parallel workers the
  verbose tokens may appear in any order. The model fixes the order of the input
  sequence. `TotalAppend` states why the parallel sum equals the sequential one.
- I/O: writing, buffering and flushing standard output are left out. So are the
  `expect` panics when the lock is poisoned or a write fails. The methods return
  the text they would write.
- Fixed-width arithmetic: integers are unbounded. `faces + 1` overflows when faces is
  2^64-1. The `u64` sum can overflow. The `repetitions as usize` cast truncates on
  32-bit targets. None of these is modelled. `DiceRoll`'s fields and the parsed values
  are still confined to [0, 2^64-1].
- Error messages: the text of the `String` error (the format message, the text of the
  standard library's `ParseIntError`, the faces message) is replaced by an error kind.
- ParseU64: a lone `+` is modelled as `InvalidDigit`, as current Rust standard libraries
  report it. Older standard libraries reported `Empty` for it. Both are rejections,
  and only the message differs.
