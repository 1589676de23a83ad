/**
 * One delta cell of the report: a colour and a direction symbol chosen by the
 * sign of the delta, and its magnitude scaled by powers of 1000 into a unit
 * of the table {0: B, 1: KB, 2: MB, 3: GB}.
 */
module CellFormat {
  import opened Wrappers

  const IncreasedColor := "red"
  const DecreasedColor := "lime"
  const UnchangedColor := "gray"

  const IncreasedSymbol := "\U{25B2}"  // black up-pointing triangle
  const DecreasedSymbol := "\U{25BC}"  // black down-pointing triangle
  const UnchangedSymbol := " "

  /** The unit table the formatter indexes by the number of divisions; it has no entry for 4. */
  const Units: map<nat, string> := map[0 := "B", 1 := "KB", 2 := "MB", 3 := "GB"]

  /** The divisions by 1000 stop at this many. */
  const MaxPower: nat := 4

  /** A rendered cell, before the magnitude is written with two decimals. */
  datatype Cell = Cell(color: string, symbol: string, magnitude: real, unit: string)

  /** The exception the unit lookup raises for a key the table lacks. */
  datatype LookupError = KeyError(key: nat)

  function Abs(x: real): real
  {
    if x < 0.0 then -x else x
  }

  function Pow1000(n: nat): (p: real)
    ensures p >= 1.0
  {
    if n == 0 then 1.0 else 1000.0 * Pow1000(n - 1)
  }

  /**
   * How many times the scaling loop divides a magnitude, in closed form: one
   * more for each of 10^3, 10^6, 10^9, 10^12 the magnitude strictly exceeds.
   */
  function ScalePower(magnitude: real): (power: nat)
    ensures power <= MaxPower
    ensures power > 0 ==> magnitude > Pow1000(power)
    ensures power < MaxPower ==> magnitude <= 1000.0 * Pow1000(power)
  {
    assert Pow1000(1) == 1000.0 && Pow1000(2) == 1000000.0 && Pow1000(3) == 1000000000.0;
    assert Pow1000(4) == 1000000000000.0;
    if magnitude > 1000000000000.0 then 4
    else if magnitude > 1000000000.0 then 3
    else if magnitude > 1000000.0 then 2
    else if magnitude > 1000.0 then 1
    else 0
  }

  /** The colour and symbol of a delta. */
  function Annotation(delta: real): (string, string)
  {
    if delta > 0.0 then (IncreasedColor, IncreasedSymbol)
    else if delta < 0.0 then (DecreasedColor, DecreasedSymbol)
    else (UnchangedColor, UnchangedSymbol)
  }

  /**
   * The cell a delta renders as, or the lookup error it raises: the unit
   * lookup raises exactly when the magnitude exceeds 10^12, where the loop
   * has divided four times, and then with KeyError(4).
   */
  function CellOf(delta: real): (r: Result<Cell, LookupError>)
    ensures r.Failure? <==> Abs(delta) > 1000000000000.0
    ensures r.Failure? ==> r.error == KeyError(MaxPower)
  {
    var (color, symbol) := Annotation(delta);
    var power := ScalePower(Abs(delta));
    if power in Units then Success(Cell(color, symbol, Abs(delta) / Pow1000(power), Units[power]))
    else Failure(KeyError(power))
  }

  /**
   * Render one delta: annotate by sign, take the absolute value, divide by 1000
   * while it exceeds 1000 (at most four times), then look the unit up.
   */
  method FormatCell(delta: real) returns (r: Result<Cell, LookupError>)
    ensures r == CellOf(delta)
  {
    var color, symbol;
    if delta > 0.0 {
      color, symbol := IncreasedColor, IncreasedSymbol;
    } else if delta < 0.0 {
      color, symbol := DecreasedColor, DecreasedSymbol;
    } else {
      color, symbol := UnchangedColor, UnchangedSymbol;
    }

    var value := Abs(delta);
    var power: nat := 0;
    while value > 1000.0 && power < MaxPower
      invariant power <= MaxPower
      invariant value * Pow1000(power) == Abs(delta)
      invariant ScalePower(Abs(delta)) == if power + ScalePower(value) < MaxPower then power + ScalePower(value) else MaxPower
    {
      ghost var before := value;
      power := power + 1;
      value := value / 1000.0;
      assert value * Pow1000(power) == before * Pow1000(power - 1);
    }

    if power in Units {
      r := Success(Cell(color, symbol, value, Units[power]));
    } else {
      r := Failure(KeyError(power));
    }
  }

  /**
   * The scaled magnitude times 1000 to the number of divisions is the delta's
   * absolute value; it is at most 1000 and, once divided at least once, above 1.
   */
  lemma CellMagnitudeExact(delta: real)
    ensures CellOf(delta).Success? ==>
              exists power :: power in Units && Units[power] == CellOf(delta).value.unit
                && CellOf(delta).value.magnitude * Pow1000(power) == Abs(delta)
                && CellOf(delta).value.magnitude <= 1000.0
                && (power > 0 ==> CellOf(delta).value.magnitude > 1.0)
  {
    if CellOf(delta).Success? {
      var power := ScalePower(Abs(delta));
      var c := CellOf(delta).value;
      assert Pow1000(1) == 1000.0 && Pow1000(2) == 1000000.0 && Pow1000(3) == 1000000000.0;
      assert c.magnitude * Pow1000(power) == Abs(delta);
      assert power in Units && Units[power] == c.unit;
    }
  }

  /**
   * The threshold is strict: up to and including 1000 nothing is scaled and the
   * unit is B; just above 1000 the unit is KB.
   */
  lemma CellThreshold(delta: real)
    ensures Abs(delta) <= 1000.0 ==>
              CellOf(delta).Success? && CellOf(delta).value.magnitude == Abs(delta) && CellOf(delta).value.unit == "B"
    ensures 1000.0 < Abs(delta) <= 1000000.0 ==>
              CellOf(delta).Success? && CellOf(delta).value.magnitude * 1000.0 == Abs(delta) && CellOf(delta).value.unit == "KB"
  {
    if 1000.0 < Abs(delta) <= 1000000.0 {
      assert Pow1000(1) == 1000.0;
    }
  }

  /**
   * Exactly one annotation applies: red with an up triangle for growth, lime
   * with a down triangle for shrinkage, gray with a blank for no change.
   */
  lemma CellAnnotationBySign(delta: real)
    ensures CellOf(delta).Success? ==>
              && (CellOf(delta).value.color == IncreasedColor <==> delta > 0.0)
              && (CellOf(delta).value.color == DecreasedColor <==> delta < 0.0)
              && (CellOf(delta).value.color == UnchangedColor <==> delta == 0.0)
              && (CellOf(delta).value.symbol == IncreasedSymbol <==> delta > 0.0)
              && (CellOf(delta).value.symbol == DecreasedSymbol <==> delta < 0.0)
              && (CellOf(delta).value.symbol == UnchangedSymbol <==> delta == 0.0)
  {
    assert IncreasedColor != DecreasedColor && IncreasedColor != UnchangedColor && DecreasedColor != UnchangedColor;
    assert IncreasedSymbol[0] != DecreasedSymbol[0] && IncreasedSymbol[0] != UnchangedSymbol[0] && DecreasedSymbol[0] != UnchangedSymbol[0];
  }

  /**
   * A delta and its negation render the same magnitude in the same unit (or
   * fail alike); only the annotation differs, growth and shrinkage swapping.
   */
  lemma CellNegationSymmetric(delta: real)
    ensures CellOf(delta).Success? <==> CellOf(-delta).Success?
    ensures CellOf(delta).Success? ==>
              && CellOf(delta).value.magnitude == CellOf(-delta).value.magnitude
              && CellOf(delta).value.unit == CellOf(-delta).value.unit
              && (delta > 0.0 ==>
                    && CellOf(delta).value.color == IncreasedColor && CellOf(-delta).value.color == DecreasedColor
                    && CellOf(delta).value.symbol == IncreasedSymbol && CellOf(-delta).value.symbol == DecreasedSymbol)
              && (delta == 0.0 ==> CellOf(delta) == CellOf(-delta))
  {
    assert Abs(delta) == Abs(-delta);
  }

  /** 500 bytes of growth stay in bytes; 1,500 and 2,500,000 bytes scale to KB and MB; 999 stays in bytes. */
  lemma CellExamples()
    ensures CellOf(500.0) == Success(Cell(IncreasedColor, IncreasedSymbol, 500.0, "B"))
    ensures CellOf(1500.0) == Success(Cell(IncreasedColor, IncreasedSymbol, 1.5, "KB"))
    ensures CellOf(-2500000.0) == Success(Cell(DecreasedColor, DecreasedSymbol, 2.5, "MB"))
    ensures CellOf(999.0) == Success(Cell(IncreasedColor, IncreasedSymbol, 999.0, "B"))
    ensures CellOf(0.0) == Success(Cell(UnchangedColor, UnchangedSymbol, 0.0, "B"))
  {
    assert Pow1000(1) == 1000.0 && Pow1000(2) == 1000000.0;
  }
}
