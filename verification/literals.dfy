/** Generation-time rendering of constant values as C++ literals: the switch
    of `generateLiteral` on the primitive type, and the choice
    `generateNullValueLiteral` makes between the header's null-value macros
    and a rendered literal. Values arrive as the decimal text Java gives them. */
module Literals {
  import opened Endian
  import opened Errors

  datatype PrimitiveType = Char | Int8 | Int16 | Int32 | Int64 | Uint8 | Uint16 | Uint32 | Uint64 | Float | Double

  /** The C++ type a primitive maps to (the cast in front of narrow literals). */
  function CppTypeName(t: PrimitiveType): string
  {
    match t
    case Char => "char"
    case Int8 => "std::int8_t"
    case Int16 => "std::int16_t"
    case Int32 => "std::int32_t"
    case Int64 => "std::int64_t"
    case Uint8 => "std::uint8_t"
    case Uint16 => "std::uint16_t"
    case Uint32 => "std::uint32_t"
    case Uint64 => "std::uint64_t"
    case Float => "float"
    case Double => "double"
  }

  predicate IsInteger(t: PrimitiveType)
  {
    t != Char && t != Float && t != Double
  }

  /** The types whose literal carries a C cast. */
  predicate IsCast(t: PrimitiveType)
  {
    t == Char || t == Uint8 || t == Uint16 || t == Int8 || t == Int16
  }

  /** Width and signedness of an integer primitive. */
  function IntTypeOf(t: PrimitiveType): (r: IntType)
    requires IsInteger(t)
    ensures r.Valid()
  {
    match t
    case Int8 => IntType(1, true)
    case Int16 => IntType(2, true)
    case Int32 => IntType(4, true)
    case Int64 => IntType(8, true)
    case Uint8 => IntType(1, false)
    case Uint16 => IntType(2, false)
    case Uint32 => IntType(4, false)
    case Uint64 => IntType(8, false)
  }

  predicate EndsWith(s: string, suffix: string)
  {
    |suffix| <= |s| && s[|s| - |suffix|..] == suffix
  }

  const TWO_63: int := 0x8000_0000_0000_0000
  const TWO_64: int := 0x1_0000_0000_0000_0000
  const INT64_MIN_TEXT: string := "-9223372036854775808"

  // ---- digits in a radix, as `Long.parseLong` reads them and `Long.toHexString` writes them

  /** The value of a digit character: decimal digits and either case of a-f. */
  function DigitValue(c: char): Option<nat>
  {
    if '0' <= c <= '9' then Some(c as nat - '0' as nat)
    else if 'a' <= c <= 'f' then Some(c as nat - 'a' as nat + 10)
    else if 'A' <= c <= 'F' then Some(c as nat - 'A' as nat + 10)
    else None
  }

  /** The lower-case character of a digit. */
  function DigitChar(d: nat): char
    requires d < 16
  {
    if d < 10 then ('0' as int + d) as char else ('a' as int + d - 10) as char
  }

  /** The value of a non-empty digit string in the radix; None when it is
      empty or holds a character that is not a digit of the radix. */
  function ValueInRadix(s: string, radix: nat): Option<nat>
    requires 2 <= radix <= 16
  {
    if s == [] then None
    else
      var d := DigitValue(s[|s| - 1]);
      if d.None? || d.value >= radix then None
      else if |s| == 1 then Some(d.value)
      else
        var front := ValueInRadix(s[..|s| - 1], radix);
        if front.None? then None else Some(front.value * radix + d.value)
  }

  /** n in the radix, most significant digit first, no leading zeros. */
  function Render(n: nat, radix: nat): (r: string)
    requires 2 <= radix <= 16
    ensures |r| >= 1
  {
    if n < radix then [DigitChar(n)] else Render(n / radix, radix) + [DigitChar(n % radix)]
  }

  lemma DigitRoundTrip(d: nat)
    requires d < 16
    ensures DigitValue(DigitChar(d)) == Some(d)
  {
  }

  /** Every character of a rendered number is a digit. */
  lemma {:induction false} RenderDigits(n: nat, radix: nat)
    requires 2 <= radix <= 16
    ensures forall k :: 0 <= k < |Render(n, radix)| ==> DigitValue(Render(n, radix)[k]).Some?
  {
    if n >= radix {
      DivModOf(n, radix, n / radix, n % radix);
      RenderDigits(n / radix, radix);
      DigitRoundTrip(n % radix);
    } else {
      DigitRoundTrip(n);
    }
  }

  /** One more digit at the end multiplies by the radix and adds the digit. */
  lemma ValueInRadixSnoc(s: string, c: char, radix: nat)
    requires 2 <= radix <= 16 && ValueInRadix(s, radix).Some?
    requires DigitValue(c).Some? && DigitValue(c).value < radix
    ensures ValueInRadix(s + [c], radix) == Some(ValueInRadix(s, radix).value * radix + DigitValue(c).value)
  {
    var t := s + [c];
    assert t[..|t| - 1] == s;
    assert t[|t| - 1] == c;
  }

  lemma DivModOf(n: nat, radix: nat, q: nat, d: nat)
    requires 2 <= radix <= n && q == n / radix && d == n % radix
    ensures q * radix + d == n && q < n && d < radix
  {
  }

  /** Reading back a rendered number gives the number. */
  lemma {:induction false} RenderRoundTrip(n: nat, radix: nat)
    requires 2 <= radix <= 16
    ensures ValueInRadix(Render(n, radix), radix) == Some(n)
    decreases n, 1
  {
    if n < radix {
      DigitRoundTrip(n);
    } else {
      DivModOf(n, radix, n / radix, n % radix);
      RenderRoundTripStep(n, radix, n / radix, n % radix);
    }
  }

  lemma {:induction false} RenderRoundTripStep(n: nat, radix: nat, q: nat, d: nat)
    requires 2 <= radix <= n && radix <= 16
    requires q == n / radix && d == n % radix && q * radix + d == n && q < n && d < radix
    ensures ValueInRadix(Render(n, radix), radix) == Some(n)
    decreases n, 0
  {
    var front := Render(q, radix);
    assert Render(n, radix) == front + [DigitChar(d)];
    RenderRoundTrip(q, radix);
    DigitRoundTrip(d);
    ValueInRadixSnoc(front, DigitChar(d), radix);
  }

  /** A rendered number has no leading zero, unless it is 0 itself. */
  lemma {:induction false} RenderNoLeadingZero(n: nat, radix: nat)
    requires 2 <= radix <= 16
    ensures Render(n, radix)[0] == '0' <==> n == 0
  {
    if n >= radix {
      DivModOf(n, radix, n / radix, n % radix);
      RenderNoLeadingZero(n / radix, radix);
    }
  }

  /** `Long.parseLong(s)`: an optional sign then decimal digits; None where
      Java throws NumberFormatException, including outside the long range. */
  function ParseLong(s: string): (r: Option<int>)
    ensures r.Some? ==> -TWO_63 <= r.value < TWO_63
  {
    if s == [] then None
    else
      var digits := if s[0] == '-' || s[0] == '+' then s[1..] else s;
      var m := ValueInRadix(digits, 10);
      if m.None? then None
      else
        var v := if s[0] == '-' then -(m.value as int) else m.value;
        if -TWO_63 <= v < TWO_63 then Some(v) else None
  }

  /** `Long.toString(v)`: the text Java gives a long. */
  function LongText(v: int): string
  {
    if v < 0 then "-" + Render(-v, 10) else Render(v, 10)
  }

  /** Parsing the text of a long gives the long back. */
  lemma ParseLongText(v: int)
    requires -TWO_63 <= v < TWO_63
    ensures ParseLong(LongText(v)) == Some(v)
  {
    var s := LongText(v);
    if v < 0 {
      assert s[0] == '-' && s[1..] == Render(-v, 10);
      assert ValueInRadix(s[1..], 10) == Some(-v) by {
        RenderRoundTrip(-v, 10);
      }
    } else {
      assert s[0] != '-' && s[0] != '+' by {
        RenderDigits(v, 10);
        assert DigitValue(s[0]).Some?;
      }
      assert ValueInRadix(s, 10) == Some(v) by {
        RenderRoundTrip(v, 10);
      }
    }
  }

  /** `Long.toHexString(v)`: the 64 bits of v as an unsigned hexadecimal number. */
  function LongHexText(v: int): string
    requires -TWO_63 <= v < TWO_63
  {
    Render(v % TWO_64, 16)
  }

  // ---- generateLiteral and generateNullValueLiteral

  /** `generateLiteral(type, value)`: None only where a UINT64 value is not
      a long and `Long.parseLong` throws. */
  function Literal(t: PrimitiveType, value: string): (r: Option<string>)
    ensures r.None? <==> t == Uint64 && ParseLong(value).None?
  {
    match t
    case Char | Uint8 | Uint16 | Int8 | Int16 => Some("(" + CppTypeName(t) + ")" + value)
    case Uint32 | Int32 => Some(value)
    case Float => Some(if EndsWith(value, "NaN") then "SBE_FLOAT_NAN" else value + "f")
    case Int64 => Some(if value == INT64_MIN_TEXT then "INT64_MIN" else value + "L")
    case Uint64 =>
      var v := ParseLong(value);
      if v.None? then None else Some("0x" + LongHexText(v.value) + "L")
    case Double => Some(if EndsWith(value, "NaN") then "SBE_DOUBLE_NAN" else value)
  }

  /** Text made of the characters of a finite number's decimal text. */
  predicate IsNumberText(s: string)
  {
    |s| >= 1 && forall k :: 0 <= k < |s| ==> s[k] in "0123456789+-.eE"
  }

  /** The value text a literal stands for: the inverse of `Literal` for the
      types other than UINT64, all NaN spellings reading as "NaN". */
  function ValueText(t: PrimitiveType, lit: string): Option<string>
    requires t != Uint64
  {
    match t
    case Char | Uint8 | Uint16 | Int8 | Int16 =>
      var cast := "(" + CppTypeName(t) + ")";
      if |cast| <= |lit| && lit[..|cast|] == cast then Some(lit[|cast|..]) else None
    case Uint32 | Int32 => Some(lit)
    case Float =>
      if lit == "SBE_FLOAT_NAN" then Some("NaN")
      else if EndsWith(lit, "f") then Some(lit[..|lit| - 1]) else None
    case Int64 =>
      if lit == "INT64_MIN" then Some(INT64_MIN_TEXT)
      else if EndsWith(lit, "L") then Some(lit[..|lit| - 1]) else None
    case Double => if lit == "SBE_DOUBLE_NAN" then Some("NaN") else Some(lit)
  }

  /** The text of a finite number does not end in NaN, and it starts with
      none of the characters a macro name, a cast or a hexadecimal prefix
      puts first or second. */
  lemma NumberTextShape(value: string)
    requires IsNumberText(value)
    ensures !EndsWith(value, "NaN")
    ensures value[0] != 'S' && value[0] != 'I' && value[0] != '('
    ensures |value| >= 2 ==> value[1] != 'x'
  {
    assert value[0] in "0123456789+-.eE";
    assert value[|value| - 1] in "0123456789+-.eE";
    if |value| >= 2 {
      assert value[1] in "0123456789+-.eE";
    }
  }

  /** Every literal of a finite number other than UINT64 reads back as the
      value it was made from. */
  lemma LiteralRoundTrip(t: PrimitiveType, value: string)
    requires t != Uint64 && IsNumberText(value)
    ensures Literal(t, value).Some? && ValueText(t, Literal(t, value).value) == Some(value)
  {
    NumberTextShape(value);
    var lit := Literal(t, value).value;
    match t
    case Float =>
      assert lit == value + "f";
      assert lit[0] != 'S';
      assert lit[..|lit| - 1] == value;
    case Int64 =>
      if value != INT64_MIN_TEXT {
        assert lit == value + "L";
        assert lit[0] != 'I';
        assert lit[..|lit| - 1] == value;
      }
    case Double =>
      assert lit == value;
    case Int32 =>
    case Uint32 =>
    case Uint64 =>
    case Char | Uint8 | Uint16 | Int8 | Int16 =>
      assert lit[..|lit| - |value|] == "(" + CppTypeName(t) + ")";
  }

  /** The most negative int64 is the one INT64 value rendered as the
      `INT64_MIN` macro; every other INT64 value gets the `L` suffix. */
  lemma Int64Literal(value: string)
    ensures Literal(Int64, value) == Some("INT64_MIN") <==> value == INT64_MIN_TEXT
    ensures value != INT64_MIN_TEXT ==> Literal(Int64, value) == Some(value + "L")
  {
    if value != INT64_MIN_TEXT {
      var lit := value + "L";
      assert lit[|lit| - 1] == 'L';
      assert "INT64_MIN"[8] == 'N';
    }
  }

  /** A FLOAT or DOUBLE value ending in NaN becomes the NaN macro of its type;
      a FLOAT gets the `f` suffix and a DOUBLE is kept as it is otherwise. */
  lemma FloatingLiteral(value: string)
    ensures EndsWith(value, "NaN") ==>
      Literal(Float, value) == Some("SBE_FLOAT_NAN") && Literal(Double, value) == Some("SBE_DOUBLE_NAN")
    ensures !EndsWith(value, "NaN") ==>
      Literal(Float, value) == Some(value + "f") && Literal(Double, value) == Some(value)
  {
  }

  /** For a number, the literal starts with a cast exactly for CHAR and the
      8- and 16-bit integers. */
  lemma LiteralCast(t: PrimitiveType, value: string)
    requires IsNumberText(value) && Literal(t, value).Some?
    ensures Literal(t, value).value[0] == '(' <==> IsCast(t)
  {
    NumberTextShape(value);
  }

  /** For a number, the literal is the value itself exactly for INT32,
      UINT32 and DOUBLE. */
  lemma LiteralVerbatim(t: PrimitiveType, value: string)
    requires IsNumberText(value)
    ensures Literal(t, value) == Some(value) <==> t == Int32 || t == Uint32 || t == Double
  {
    NumberTextShape(value);
    match t
    case Float =>
      assert |value + "f"| != |value|;
    case Int64 =>
      assert |value + "L"| != |value|;
    case Uint64 =>
      if Literal(t, value).Some? {
        assert Literal(t, value).value[1] == 'x';
      }
    case Char | Uint8 | Uint16 | Int8 | Int16 =>
      assert |"(" + CppTypeName(t) + ")" + value| != |value|;
    case _ =>
  }

  /** A UINT64 literal is the hexadecimal form of the 64 bits Java holds for
      the value: a negative long (how a value above 2^63 is carried) denotes
      that value plus 2^64. */
  lemma Uint64Literal(value: string)
    requires ParseLong(value).Some?
    ensures var v := ParseLong(value).value;
      exists h :: Literal(Uint64, value) == Some("0x" + h + "L") &&
        ValueInRadix(h, 16) == Some(if v < 0 then v + TWO_64 else v)
  {
    var v := ParseLong(value).value;
    var h := LongHexText(v);
    RenderRoundTrip(v % TWO_64, 16);
    ModOfRange(v, TWO_64);
    assert Literal(Uint64, value) == Some("0x" + h + "L");
  }

  /** The macro the header defines for the default null of an integer type. */
  function NullMacro(t: PrimitiveType): string
    requires IsInteger(t)
  {
    match t
    case Int8 => "SBE_NULLVALUE_INT8"
    case Int16 => "SBE_NULLVALUE_INT16"
    case Int32 => "SBE_NULLVALUE_INT32"
    case Int64 => "SBE_NULLVALUE_INT64"
    case Uint8 => "SBE_NULLVALUE_UINT8"
    case Uint16 => "SBE_NULLVALUE_UINT16"
    case Uint32 => "SBE_NULLVALUE_UINT32"
    case Uint64 => "SBE_NULLVALUE_UINT64"
  }

  /** The value each null-value macro of the header expands to: the
      `std::numeric_limits` minimum of a signed type, maximum of an unsigned one. */
  function MacroValue(name: string): Option<int>
  {
    if name == "SBE_NULLVALUE_INT8" then Some(-0x80)
    else if name == "SBE_NULLVALUE_INT16" then Some(-0x8000)
    else if name == "SBE_NULLVALUE_INT32" then Some(-0x8000_0000)
    else if name == "SBE_NULLVALUE_INT64" then Some(-0x8000_0000_0000_0000)
    else if name == "SBE_NULLVALUE_UINT8" then Some(0xff)
    else if name == "SBE_NULLVALUE_UINT16" then Some(0xffff)
    else if name == "SBE_NULLVALUE_UINT32" then Some(0xffff_ffff)
    else if name == "SBE_NULLVALUE_UINT64" then Some(0xffff_ffff_ffff_ffff)
    else None
  }

  /** `generateNullValueLiteral`: with no null value in the schema an
      integer type gets its macro; otherwise the applicable null value (the
      schema's own when it has one) is rendered by `generateLiteral`. */
  function NullValueLiteral(t: PrimitiveType, nullValue: Option<string>, applicableNullValue: string): (r: Option<string>)
    requires nullValue.Some? ==> applicableNullValue == nullValue.value
    ensures nullValue.Some? ==> r == Literal(t, nullValue.value)
  {
    if nullValue.None? && IsInteger(t) then Some(NullMacro(t)) else Literal(t, applicableNullValue)
  }

  lemma Pow256Values()
    ensures Pow256(1) == 0x100 && Pow256(2) == 0x1_0000 && Pow256(4) == 0x1_0000_0000
    ensures Pow256(8) == TWO_64
  {
    assert Pow256(3) == 0x100_0000;
    assert Pow256(5) == 0x100_0000_0000;
    assert Pow256(6) == 0x1_0000_0000_0000;
    assert Pow256(7) == 0x100_0000_0000_0000;
  }

  /** With no null value in the schema, an integer type's null literal is a
      macro whose value is the type's minimum when signed and its maximum
      when unsigned, so it lies outside the range of valid values. */
  lemma DefaultNullIsExtreme(t: PrimitiveType, applicableNullValue: string)
    requires IsInteger(t)
    ensures var r := NullValueLiteral(t, None, applicableNullValue);
      r.Some? && MacroValue(r.value) ==
        Some(if IntTypeOf(t).signed then MinValue(IntTypeOf(t)) else MaxValue(IntTypeOf(t)))
  {
    Pow256Values();
  }
}
