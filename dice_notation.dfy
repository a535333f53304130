/**
 * The `NdM` dice notation: a `DiceRoll` value, its parser (`FromStr`) and
 * its rendering (`Display`).
 */
module DiceNotation {
  import opened Wrappers
  import opened Text
  import opened Decimal

  /** Roll `repetitions` dice of `faces` faces each; a parsed roll has `faces > 0`. */
  datatype DiceRoll = DiceRoll(repetitions: u64, faces: u64)
  {
    predicate Valid()
    {
      faces > 0
    }
  }

  /** Why a dice specification was refused. */
  datatype ParseError =
    | InvalidFormat               // not exactly one 'd'
    | BadNumber(kind: IntErrorKind)  // a piece is not a `u64` literal
    | InvalidFaces                // faces is 0

  /**
   * Split on every 'd'; demand exactly two pieces; parse repetitions, then
   * faces, as `u64`; refuse zero faces.
   */
  function Parse(s: string): (r: Result<DiceRoll, ParseError>)
    ensures r == Err(InvalidFormat) <==> Count(s, 'd') != 1
    ensures r.Ok? <==>
      |Split(s, 'd')| == 2 && IsU64Literal(Split(s, 'd')[0]) && IsU64Literal(Split(s, 'd')[1])
      && LiteralValue(Split(s, 'd')[1]) != 0
    ensures r.Ok? ==>
      r.value.Valid()
      && r.value.repetitions == LiteralValue(Split(s, 'd')[0])
      && r.value.faces == LiteralValue(Split(s, 'd')[1])
    ensures r == Err(InvalidFaces) <==>
      |Split(s, 'd')| == 2 && IsU64Literal(Split(s, 'd')[0]) && IsU64Literal(Split(s, 'd')[1])
      && LiteralValue(Split(s, 'd')[1]) == 0
    ensures (r.Err? && r.error.BadNumber?) <==>
      |Split(s, 'd')| == 2 && !(IsU64Literal(Split(s, 'd')[0]) && IsU64Literal(Split(s, 'd')[1]))
    // the repetitions piece is checked first, so its error is the one reported
    ensures |Split(s, 'd')| == 2 && !IsU64Literal(Split(s, 'd')[0]) ==>
      r == Err(BadNumber(ParseU64(Split(s, 'd')[0]).error))
    // when only the faces piece is bad, its own error is the one reported
    ensures |Split(s, 'd')| == 2 && IsU64Literal(Split(s, 'd')[0]) && !IsU64Literal(Split(s, 'd')[1]) ==>
      r == Err(BadNumber(ParseU64(Split(s, 'd')[1]).error))
  {
    SplitCount(s, 'd');
    var numbers := Split(s, 'd');
    if |numbers| != 2 then Err(InvalidFormat)
    else
      match ParseU64(numbers[0])
      case Err(e) => Err(BadNumber(e))
      case Ok(repetitions) =>
        match ParseU64(numbers[1])
        case Err(e) => Err(BadNumber(e))
        case Ok(faces) =>
          if faces != 0 then Ok(DiceRoll(repetitions, faces)) else Err(InvalidFaces)
  }

  /** `repetitions`, then 'd', then `faces`, both in decimal. */
  function Render(roll: DiceRoll): (s: string)
    ensures |Split(s, 'd')| == 2
    ensures Canonical(Split(s, 'd')[0]) && Value(Split(s, 'd')[0]) == roll.repetitions
    ensures Canonical(Split(s, 'd')[1]) && Value(Split(s, 'd')[1]) == roll.faces
  {
    var a := ToDecimal(roll.repetitions);
    var b := ToDecimal(roll.faces);
    assert 'd' !in a && 'd' !in b by {
      assert forall i :: 0 <= i < |a| ==> IsDigit(a[i]);
      assert forall i :: 0 <= i < |b| ==> IsDigit(b[i]);
    }
    SplitAround(a, b, 'd');
    a + ['d'] + b
  }

  /** Canonical decimal text is a `u64` literal when its value fits, and denotes that value. */
  lemma CanonicalLiteral(p: string)
    requires Canonical(p) && Value(p) <= U64_MAX
    ensures IsU64Literal(p) && LiteralValue(p) == Value(p)
  {
    assert Unsigned(p) == p;
  }

  /** Parsing the rendering of a valid roll gives the roll back. */
  lemma ParseRender(roll: DiceRoll)
    requires roll.Valid()
    ensures Parse(Render(roll)) == Ok(roll)
  {
    var ps := Split(Render(roll), 'd');
    CanonicalLiteral(ps[0]);
    CanonicalLiteral(ps[1]);
  }

  /**
   * A successful parse re-renders to the same text exactly when both pieces
   * were canonical (no '+' and no leading zeros): "03d6" and "+3d6" parse,
   * but render as "3d6".
   */
  lemma RenderParse(s: string)
    requires Parse(s).Ok?
    ensures Render(Parse(s).value) == s <==>
      Canonical(Split(s, 'd')[0]) && Canonical(Split(s, 'd')[1])
  {
    var ps := Split(s, 'd');
    var roll := Parse(s).value;
    if Canonical(ps[0]) && Canonical(ps[1]) {
      assert Unsigned(ps[0]) == ps[0] && Unsigned(ps[1]) == ps[1];
      CanonicalIsRendering(ps[0]);
      CanonicalIsRendering(ps[1]);
      SplitJoin(s, 'd');
      assert Join(ps, 'd') == Join(ps[..1], 'd') + ['d'] + ps[1];
      SplitAround(ToDecimal(roll.repetitions), ToDecimal(roll.faces), 'd');
    }
  }

  /** "03d6" parses to 3 dice of 6 faces but does not re-render as itself. */
  lemma LeadingZeroNotReproduced()
    ensures Parse("03d6") == Ok(DiceRoll(3, 6))
    ensures Render(DiceRoll(3, 6)) != "03d6"
  {
    SplitAround("03", "6", 'd');
    assert "03" + ['d'] + "6" == "03d6";
    assert Value("03") == 3 by { assert "03"[..1] == "0"; }
    assert Unsigned("03") == "03" && Unsigned("6") == "6";
    var ps := Split(Render(DiceRoll(3, 6)), 'd');
    assert ps[0] != "03";
  }

  /** "+3d6" parses to 3 dice of 6 faces but does not re-render as itself. */
  lemma PlusSignNotReproduced()
    ensures Parse("+3d6") == Ok(DiceRoll(3, 6))
    ensures Render(DiceRoll(3, 6)) != "+3d6"
  {
    SplitAround("+3", "6", 'd');
    assert "+3" + ['d'] + "6" == "+3d6";
    assert Unsigned("+3") == "3" && Unsigned("6") == "6";
    var ps := Split(Render(DiceRoll(3, 6)), 'd');
    assert ps[0] != "+3";
  }

  /** Without a 'd' the text is refused as malformed. */
  lemma NoDelimiterExample()
    ensures Parse("abc") == Err(InvalidFormat)
  {
    assert "abc"[..2] == "ab" && "ab"[..1] == "a";
    assert Count("a", 'd') == 0 && Count("ab", 'd') == 0;
  }

  /** With two 'd's the text is refused as malformed. */
  lemma TwoDelimitersExample()
    ensures Parse("3d4d5") == Err(InvalidFormat)
  {
    assert "3d"[..1] == "3" && Count("3", 'd') == 0;
    assert Count("3d", 'd') == 1;
    assert "3d4"[..2] == "3d";
    assert Count("3d4", 'd') == 1;
    assert "3d4d"[..3] == "3d4";
    assert Count("3d4d", 'd') == 2;
    assert "3d4d5"[..4] == "3d4d";
  }

  /** An empty piece is an empty number, whichever side it is on. */
  lemma EmptyPieceExamples()
    ensures Parse("d6") == Err(BadNumber(Empty))
    ensures Parse("3d") == Err(BadNumber(Empty))
  {
    SplitAround("", "6", 'd');
    assert "" + ['d'] + "6" == "d6";
    SplitAround("3", "", 'd');
    assert "3" + ['d'] + "" == "3d";
    assert Unsigned("3") == "3";
  }

  /** When both pieces are bad, the error of the repetitions piece is the one reported. */
  lemma RepetitionsErrorWinsExample()
    ensures Parse("xd") == Err(BadNumber(InvalidDigit))
  {
    SplitAround("x", "", 'd');
    assert "x" + ['d'] + "" == "xd";
    assert Unsigned("x") == "x" && DigitRun("x") == 0;
  }

  /** When only the faces piece is bad, its own error is the one reported. */
  lemma FacesErrorExample()
    ensures Parse("3dx") == Err(BadNumber(InvalidDigit))
  {
    SplitAround("3", "x", 'd');
    assert "3" + ['d'] + "x" == "3dx";
    assert Unsigned("3") == "3" && Unsigned("x") == "x" && DigitRun("x") == 0;
  }

  /** Zero faces is refused once both numbers parse. */
  lemma ZeroFacesExample()
    ensures Parse("3d0") == Err(InvalidFaces)
  {
    SplitAround("3", "0", 'd');
    assert "3" + ['d'] + "0" == "3d0";
    assert Unsigned("3") == "3" && Unsigned("0") == "0";
  }

  /** Zero repetitions is accepted. */
  lemma ZeroRepetitionsExample()
    ensures Parse("0d6") == Ok(DiceRoll(0, 6))
  {
    assert ToDecimal(0) == "0" && ToDecimal(6) == "6";
    assert Render(DiceRoll(0, 6)) == "0d6";
    ParseRender(DiceRoll(0, 6));
  }
}
