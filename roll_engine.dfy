/**
 * The two output modes of the dice roller, with the random source injected:
 * `rolls` holds, in order, the values the generator produced, each drawn from
 * the half-open range [1, faces + 1), that is, the closed range [1, faces].
 */
module RollEngine {
  import opened Wrappers
  import opened Text
  import opened Decimal
  import opened DiceNotation

  /** Every roll lies in [1, faces], as `gen_range(1, faces + 1)` promises. */
  predicate AllInRange(rolls: seq<u64>, faces: nat)
  {
    forall i :: 0 <= i < |rolls| ==> 1 <= rolls[i] <= faces
  }

  /** The sum of the rolls. */
  function Total(rolls: seq<u64>): nat
  {
    if rolls == [] then 0 else Total(rolls[..|rolls| - 1]) + rolls[|rolls| - 1]
  }

  /** The verbose-mode output: each roll in decimal followed by one space. */
  function Transcript(rolls: seq<u64>): string
  {
    if rolls == [] then []
    else Transcript(rolls[..|rolls| - 1]) + ToDecimal(rolls[|rolls| - 1]) + " "
  }

  /** `w` written `n` times in a row. */
  function Repeat(w: string, n: nat): string
  {
    if n == 0 then [] else Repeat(w, n - 1) + w
  }

  /** The decimal text of each roll, one token per roll. */
  function Tokens(rolls: seq<u64>): (ts: seq<string>)
    ensures |ts| == |rolls|
  {
    seq(|rolls|, i requires 0 <= i < |rolls| => ToDecimal(rolls[i]))
  }

  /** n rolls of a die with `faces` faces sum to between n and n * faces. */
  lemma {:induction false} TotalBounds(rolls: seq<u64>, faces: nat)
    requires AllInRange(rolls, faces)
    ensures |rolls| <= Total(rolls) <= |rolls| * faces
  {
    if rolls != [] {
      var init := rolls[..|rolls| - 1];
      TotalBounds(init, faces);
      assert |rolls| * faces == |init| * faces + faces;
    }
  }

  /** The sum of two runs of rolls is the sum of their sums, so any split across workers gives the same total. */
  lemma {:induction false} TotalAppend(a: seq<u64>, b: seq<u64>)
    ensures Total(a + b) == Total(a) + Total(b)
    decreases |b|
  {
    if b == [] {
      assert a + b == a;
    } else {
      var init := b[..|b| - 1];
      TotalAppend(a, init);
      assert (a + b)[..|a + b| - 1] == a + init;
    }
  }

  /** With one-faced dice the sum is the number of dice. */
  lemma TotalOfOnes(rolls: seq<u64>)
    requires AllInRange(rolls, 1)
    ensures Total(rolls) == |rolls|
  {
    TotalBounds(rolls, 1);
  }

  /** With one-faced dice the verbose output is "1 " once per die. */
  lemma {:induction false} TranscriptOfOnes(rolls: seq<u64>)
    requires AllInRange(rolls, 1)
    ensures Transcript(rolls) == Repeat("1 ", |rolls|)
  {
    if rolls != [] {
      var init := rolls[..|rolls| - 1];
      TranscriptOfOnes(init);
      assert rolls[|rolls| - 1] == 1;
      assert ToDecimal(1) == "1";
    }
  }

  /**
   * Splitting the verbose output on spaces gives back one decimal token per
   * roll, in order, and a final empty piece after the last space: no token
   * is split or merged with another.
   */
  lemma {:induction false} TranscriptTokens(rolls: seq<u64>)
    ensures Split(Transcript(rolls), ' ') == Tokens(rolls) + [[]]
  {
    if rolls == [] {
      assert Transcript(rolls) == [];
    } else {
      var init := rolls[..|rolls| - 1];
      var t := Transcript(init);
      var w := ToDecimal(rolls[|rolls| - 1]);
      TranscriptTokens(init);
      assert ' ' !in w by {
        assert forall i :: 0 <= i < |w| ==> IsDigit(w[i]);
      }
      SplitAppendPiece(t, w, ' ');
      assert Tokens(rolls) == Tokens(init) + [w];
    }
  }

  /**
   * Sum mode: add up `roll.repetitions` rolls and produce the line printed,
   * the sum in decimal and a newline.
   */
  method ProcessSum(roll: DiceRoll, rolls: seq<u64>) returns (sum: nat, line: string)
    requires |rolls| == roll.repetitions && AllInRange(rolls, roll.faces)
    ensures sum == Total(rolls)
    ensures roll.repetitions <= sum <= roll.repetitions * roll.faces
    ensures |line| >= 2 && Canonical(line[..|line| - 1]) && Value(line[..|line| - 1]) == sum
    ensures line[|line| - 1] == '\n'
  {
    sum := 0;
    for i := 0 to |rolls|
      invariant sum == Total(rolls[..i])
    {
      assert rolls[..i + 1][..i] == rolls[..i];
      sum := sum + rolls[i];
    }
    assert rolls[..|rolls|] == rolls;
    TotalBounds(rolls, roll.faces);
    var digits := ToDecimal(sum);
    line := digits + "\n";
    assert line[..|line| - 1] == digits;
  }

  /**
   * Verbose mode: write each of `roll.repetitions` rolls in decimal followed
   * by one space; the result is the text written to standard output.
   */
  method ProcessVerbose(roll: DiceRoll, rolls: seq<u64>) returns (out: string)
    requires |rolls| == roll.repetitions && AllInRange(rolls, roll.faces)
    ensures out == Transcript(rolls)
    ensures |Split(out, ' ')| == |rolls| + 1 && Split(out, ' ')[|rolls|] == []
    ensures forall i :: 0 <= i < |rolls| ==> ParseU64(Split(out, ' ')[i]) == Ok(rolls[i])
  {
    out := [];
    for i := 0 to |rolls|
      invariant out == Transcript(rolls[..i])
    {
      assert rolls[..i + 1][..i] == rolls[..i];
      out := out + ToDecimal(rolls[i]) + " ";
    }
    assert rolls[..|rolls|] == rolls;
    TranscriptTokens(rolls);
    forall i | 0 <= i < |rolls|
      ensures ParseU64(Split(out, ' ')[i]) == Ok(rolls[i])
    {
      assert Split(out, ' ')[i] == ToDecimal(rolls[i]);
      DecimalRoundTrip(rolls[i]);
    }
  }
}
