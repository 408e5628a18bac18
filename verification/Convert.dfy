/**
 * Stored values and their strict conversion to a scalar type (chiffondb-core/src/schema/convert.rs).
 */
module Convert {
  import opened Types
  import opened Floats

  type U64 = x: int | 0 <= x < 2 * TWO63
  type NegI64 = x: int | -TWO63 <= x < 0 witness -1
  type I64 = x: int | -TWO63 <= x < TWO63

  /** A JSON number: unsigned, negative, or floating-point. */
  datatype Number = PosInt(n: U64) | NegInt(i: NegI64) | Float(f: F64)

  datatype Value =
    | Null
    | Bool(b: bool)
    | Num(num: Number)
    | Str(s: string)
    | Arr(items: seq<Value>)
    | Obj(fields: map<string, Value>)

  datatype ScalarType = StringType | IntType | FloatType | BooleanType | DateTimeType

  /** How the standard library trims, prints and parses. `parseFloat` leaves out what is not finite. */
  datatype Text = Text(trim: string -> string, show: Number -> string,
                       parseInt: string -> Option<I64>, parseFloat: string -> Option<F64>)

  function FromI64(i: I64): Value {
    Num(if i < 0 then NegInt(i) else PosInt(i))
  }

  predicate IsI64(n: Number) {
    n.NegInt? || (n.PosInt? && n.n < TWO63)
  }

  function AsF64(n: Number): F64 {
    match n
    case PosInt(k) => Round(k)
    case NegInt(i) => Round(i)
    case Float(f) => f
  }

  predicate InI64Range(f: F64) {
    -TWO63 * One() <= Scaled(f) < TWO63 * One()
  }

  function FloatToInt(f: F64): Option<Value> {
    if !Whole(f) || !InI64Range(f) then None
    else
      WholeInRange(f);
      Some(FromI64(Scaled(f) / One()))
  }

  function IntToFloat(i: I64): Option<Value> {
    if Equals(Round(i), i) then Some(Num(Float(Round(i)))) else None
  }

  /** The value converted to the type, or nothing when it has no exact counterpart. */
  function ConvertValue(text: Text, v: Value, to: ScalarType): Option<Value> {
    match (to, v)
    case (StringType, Str(_)) => Some(v)
    case (StringType, Num(n)) => Some(Str(text.show(n)))
    case (StringType, Bool(b)) => Some(Str(if b then "true" else "false"))
    case (IntType, Num(n)) => if IsI64(n) then Some(v) else FloatToInt(AsF64(n))
    case (IntType, Str(s)) =>
      (match text.parseInt(text.trim(s)) case None => None case Some(i) => Some(FromI64(i)))
    case (FloatType, Num(n)) =>
      (match n
       case Float(_) => Some(v)
       case NegInt(i) => IntToFloat(i)
       case PosInt(k) => if k < TWO63 then IntToFloat(k) else None)
    case (FloatType, Str(s)) =>
      (match text.parseFloat(text.trim(s)) case None => None case Some(f) => Some(Num(Float(f))))
    case (BooleanType, Bool(_)) => Some(v)
    case (BooleanType, Str(s)) =>
      if text.trim(s) == "true" then Some(Bool(true))
      else if text.trim(s) == "false" then Some(Bool(false))
      else None
    case (DateTimeType, Str(_)) => Some(v)
    case _ => None
  }

  // ---- Integers and floats ----

  lemma RangeOfWhole(f: F64, i: int)
    requires Equals(f, i)
    ensures InI64Range(f) <==> -TWO63 <= i < TWO63
  {
    hide One, Scaled;
    var one := One();
    if i < -TWO63 {
      MulMono(i + 1, -TWO63, one);
      MulMono(i, i, one);
    } else if i < TWO63 {
      MulMono(-TWO63, i, one);
      MulMono(i + 1, TWO63, one);
      MulMono(i, i, one);
    } else {
      MulMono(TWO63, i, one);
    }
  }

  lemma WholeInRange(f: F64)
    requires Whole(f) && InI64Range(f)
    ensures -TWO63 <= Scaled(f) / One() < TWO63
  {
    WholeIff(f);
    RangeOfWhole(f, Scaled(f) / One());
  }

  /** A float becomes an integer exactly when it is the value of a 64-bit one, and then that one. */
  lemma FloatToIntIff(f: F64, i: I64)
    ensures FloatToInt(f) == Some(FromI64(i)) <==> Equals(f, i)
    ensures FloatToInt(f).Some? ==> exists j: I64 :: FloatToInt(f) == Some(FromI64(j))
  {
    hide One, Scaled;
    WholeIff(f);
    if Equals(f, i) {
      RangeOfWhole(f, i);
      EqualsUnique(f, i, Scaled(f) / One());
    }
    if FloatToInt(f).Some? {
      WholeInRange(f);
    }
  }

  /** An integer becomes a float exactly when some float has its value: when its bits beyond the first
      53 are zeros. The float is then that value. */
  lemma IntToFloatIff(i: I64)
    ensures IntToFloat(i).Some? <==> exists f: F64 :: Equals(f, i)
    ensures IntToFloat(i).Some? <==> Excess(Abs(i)) == 0 || i % Pow2(Excess(Abs(i))) == 0
    ensures IntToFloat(i).Some? ==> IntToFloat(i).value.Num? && IntToFloat(i).value.num.Float? && Equals(IntToFloat(i).value.num.f, i)
  {
    RepresentableIff(i);
    RepresentableBits(i);
  }

  /** Int to Float and back gives the integer again. */
  lemma IntFloatInt(i: I64)
    requires IntToFloat(i).Some?
    ensures FloatToInt(IntToFloat(i).value.num.f) == Some(FromI64(i))
  {
    FloatToIntIff(Round(i), i);
  }

  /** Every whole float from -2^63 up to 2^63 survives Float to Int to Float with its value; only the sign
      of a zero is lost. */
  lemma FloatIntFloat(f: F64)
    requires Whole(f) && InI64Range(f)
    ensures exists i: I64 ::
      && FloatToInt(f) == Some(FromI64(i))
      && IntToFloat(i).Some? && Scaled(IntToFloat(i).value.num.f) == Scaled(f)
  {
    WholeIff(f);
    WholeInRange(f);
    var i: I64 := Scaled(f) / One();
    FloatToIntIff(f, i);
    IntToFloatIff(i);
    assert Equals(IntToFloat(i).value.num.f, i);
  }

  /** The float 2^63. */
  const F_TWO63: F64 := Binary64(false, TWO52, 11)

  lemma ScaledTwo63()
    ensures Scaled(F_TWO63) == TWO63 * One()
  {
    Pow2Add(11, -MIN_EXP);
    assert Pow2(11) == 2048 by {
      Pow2Add(5, 6);
    }
    assert TWO52 * (2048 * One()) == TWO63 * One();
  }

  /** An unsigned number beyond the signed range converts to neither number type. */
  lemma HugeConvertsToNeither(text: Text, n: U64)
    requires TWO63 <= n
    ensures ConvertValue(text, Num(PosInt(n)), IntType) == None
    ensures ConvertValue(text, Num(PosInt(n)), FloatType) == None
  {
    ScaledTwo63();
    RoundIsNearest(n, F_TWO63);
    hide One, Scaled, Round;
    MulMono(TWO63, n, One());
  }

  // ---- The conversion as a whole ----

  /** What a value of the type looks like. */
  predicate Fits(v: Value, to: ScalarType) {
    match to
    case StringType => v.Str?
    case IntType => v.Num? && IsI64(v.num)
    case FloatType => v.Num? && v.num.Float?
    case BooleanType => v.Bool?
    case DateTimeType => v.Str?
  }

  /** A value that fits the type is left as it is, and a converted value fits it. */
  lemma ConvertedFits(text: Text, v: Value, to: ScalarType)
    ensures Fits(v, to) ==> ConvertValue(text, v, to) == Some(v)
    ensures ConvertValue(text, v, to).Some? ==> Fits(ConvertValue(text, v, to).value, to)
  {
    hide One, Scaled, Round;
    if v.Num? && to.IntType? && !IsI64(v.num) {
      FloatToIntIff(AsF64(v.num), 0);
    }
  }

  /** Converting twice is converting once. */
  lemma ConvertIsIdempotent(text: Text, v: Value, to: ScalarType)
    requires ConvertValue(text, v, to).Some?
    ensures ConvertValue(text, ConvertValue(text, v, to).value, to) == ConvertValue(text, v, to)
  {
    ConvertedFits(text, v, to);
    ConvertedFits(text, ConvertValue(text, v, to).value, to);
  }

  /** `v` is a number with exactly the value of `f`. */
  predicate HasValue(n: Number, scaled: int) {
    match n
    case PosInt(k) => k * One() == scaled
    case NegInt(i) => i * One() == scaled
    case Float(f) => Scaled(f) == scaled
  }

  /** Between the number types no conversion changes the value. */
  lemma NumbersKeepTheirValue(text: Text, n: Number, to: ScalarType, scaled: int)
    requires to.IntType? || to.FloatType?
    requires ConvertValue(text, Num(n), to).Some? && HasValue(n, scaled)
    ensures ConvertValue(text, Num(n), to).value.Num? && HasValue(ConvertValue(text, Num(n), to).value.num, scaled)
  {
    ConvertedFits(text, Num(n), to);
    if to.IntType? && !IsI64(n) {
      if n.PosInt? {
        HugeConvertsToNeither(text, n.n);
      }
      var j: I64 :| FloatToInt(AsF64(n)) == Some(FromI64(j));
      FloatToIntIff(AsF64(n), j);
    }
  }

  /** The number that a signed integer is. */
  lemma IntegerHasValue(i: I64)
    ensures FromI64(i).Num? && IsI64(FromI64(i).num) && !FromI64(i).num.Float? && HasValue(FromI64(i).num, i * One())
  {
  }

  /** A number converts to Int exactly when some signed 64-bit integer has its value, and then to that one. */
  lemma NumberToIntIff(text: Text, n: Number, i: I64)
    ensures ConvertValue(text, Num(n), IntType) == Some(FromI64(i)) <==> HasValue(n, i * One())
    ensures ConvertValue(text, Num(n), IntType).Some? <==> exists j: I64 :: HasValue(n, j * One())
  {
    hide Scaled, Round, FloatToInt;
    forall j: I64 ensures ConvertValue(text, Num(n), IntType) == Some(FromI64(j)) <==> HasValue(n, j * One()) {
      IntegerConverts(text, n, j);
    }
    if ConvertValue(text, Num(n), IntType).Some? {
      ToSomeInteger(text, n);
    }
  }

  lemma ToSomeInteger(text: Text, n: Number)
    requires ConvertValue(text, Num(n), IntType).Some?
    ensures exists j: I64 :: ConvertValue(text, Num(n), IntType) == Some(FromI64(j))
  {
    hide One, Scaled, Round, FloatToInt;
    match n
    case PosInt(k) =>
      if k < TWO63 {
        assert ConvertValue(text, Num(n), IntType) == Some(FromI64(k));
      } else {
        FloatToIntIff(AsF64(n), 0);
      }
    case NegInt(i) => assert ConvertValue(text, Num(n), IntType) == Some(FromI64(i));
    case Float(f) => FloatToIntIff(f, 0);
  }

  lemma IntegerConverts(text: Text, n: Number, i: I64)
    ensures ConvertValue(text, Num(n), IntType) == Some(FromI64(i)) <==> HasValue(n, i * One())
  {
    hide One, Scaled, Round, FloatToInt;
    match n
    case PosInt(k) =>
      SameMultiple(k, i);
      if TWO63 <= k {
        HugeConvertsToNeither(text, k);
      }
    case NegInt(k) => SameMultiple(k, i);
    case Float(f) =>
      FloatToIntIff(f, i);
      EqualsMeans(f, i);
  }

  lemma SameMultiple(a: int, b: int)
    ensures a * One() == b * One() <==> a == b
  {
    hide One;
    if a < b {
      MulMono(a + 1, b, One());
    } else if b < a {
      MulMono(b + 1, a, One());
    }
  }

  lemma EqualsMeans(f: F64, i: int)
    ensures Equals(f, i) <==> Scaled(f) == i * One()
  {
  }

  /** A number converts to Float exactly when it is a float, or a signed integer whose value some float
      has; the float has the value then, and a float stays as it is. */
  lemma NumberToFloatIff(text: Text, n: Number)
    ensures ConvertValue(text, Num(n), FloatType).Some? <==>
      n.Float? || exists i: I64, f: F64 :: HasValue(n, i * One()) && Scaled(f) == i * One()
    ensures n.Float? ==> ConvertValue(text, Num(n), FloatType) == Some(Num(n))
    ensures ConvertValue(text, Num(n), FloatType).Some? ==>
      && ConvertValue(text, Num(n), FloatType).value.Num? && ConvertValue(text, Num(n), FloatType).value.num.Float?
      && forall scaled :: HasValue(n, scaled) <==> HasValue(ConvertValue(text, Num(n), FloatType).value.num, scaled)
  {
    hide One, Scaled, Round, IntToFloat;
    match n
    case PosInt(k) =>
      forall i: I64 | HasValue(n, i * One()) ensures i == k {
        SameMultiple(k, i);
      }
      if k < TWO63 {
        IntegerToFloat(k);
        assert HasValue(n, k * One());
      } else {
        HugeConvertsToNeither(text, k);
      }
    case NegInt(k) =>
      forall i: I64 | HasValue(n, i * One()) ensures i == k {
        SameMultiple(k, i);
      }
      IntegerToFloat(k);
      assert HasValue(n, k * One());
    case Float(f) =>
  }

  lemma IntegerToFloat(i: I64)
    ensures IntToFloat(i).Some? <==> exists f: F64 :: Scaled(f) == i * One()
    ensures IntToFloat(i).Some? ==>
      IntToFloat(i).value.Num? && IntToFloat(i).value.num.Float? && Scaled(IntToFloat(i).value.num.f) == i * One()
  {
    IntToFloatIff(i);
    hide One, Scaled, Round, IntToFloat;
    if f: F64 :| Scaled(f) == i * One() {
      EqualsMeans(f, i);
    }
    if IntToFloat(i).Some? {
      EqualsMeans(IntToFloat(i).value.num.f, i);
    }
  }

  /** What text has to do with it: numbers are printed, strings parsed once they are trimmed, and the two
      truth values spelled out. */
  lemma TextConversions(text: Text, n: Number, s: string, b: bool, i: I64, f: F64)
    ensures ConvertValue(text, Num(n), StringType) == Some(Str(text.show(n)))
    ensures ConvertValue(text, Bool(true), StringType) == Some(Str("true"))
    ensures ConvertValue(text, Bool(false), StringType) == Some(Str("false"))
    ensures ConvertValue(text, Str(s), IntType) == Some(FromI64(i)) <==> text.parseInt(text.trim(s)) == Some(i)
    ensures ConvertValue(text, Str(s), IntType).Some? <==> text.parseInt(text.trim(s)).Some?
    ensures ConvertValue(text, Str(s), FloatType) == Some(Num(Float(f))) <==> text.parseFloat(text.trim(s)) == Some(f)
    ensures ConvertValue(text, Str(s), FloatType).Some? <==> text.parseFloat(text.trim(s)).Some?
    ensures ConvertValue(text, Str(s), BooleanType) == Some(Bool(true)) <==> text.trim(s) == "true"
    ensures ConvertValue(text, Str(s), BooleanType) == Some(Bool(false)) <==> text.trim(s) == "false"
    ensures ConvertValue(text, Str(s), BooleanType).Some? <==> text.trim(s) in ["true", "false"]
  {
    assert "true"[0] != "false"[0];
  }

  /** To text and back: a truth value comes back if trimming leaves its spelling alone, and an integer or
      a float if parsing undoes printing. */
  lemma TextRoundTrips(text: Text, b: bool, i: I64, f: F64)
    requires text.trim("true") == "true" && text.trim("false") == "false"
    requires text.parseInt(text.trim(text.show(FromI64(i).num))) == Some(i)
    requires text.parseFloat(text.trim(text.show(Float(f)))) == Some(f)
    ensures ConvertsBack(text, Bool(b), BooleanType)
    ensures ConvertsBack(text, FromI64(i), IntType)
    ensures ConvertsBack(text, Num(Float(f)), FloatType)
  {
    assert "true"[0] != "false"[0];
  }

  predicate ConvertsBack(text: Text, v: Value, from: ScalarType) {
    && ConvertValue(text, v, StringType).Some?
    && ConvertValue(text, ConvertValue(text, v, StringType).value, from) == Some(v)
  }

  /** Everything else is refused: null, arrays and objects for every type, truth values for numbers and
      times, numbers for truth values and times. */
  lemma KindsThatConvert(text: Text, v: Value, to: ScalarType)
    requires ConvertValue(text, v, to).Some?
    ensures v.Str? || (v.Bool? && (to.StringType? || to.BooleanType?)) || (v.Num? && (to.StringType? || to.IntType? || to.FloatType?))
  {
  }
}
