/** The parsed sections that the cleaner and the chunker exchange. */
module Documents {
  import opened Common
  import Text

  /** A metadata value; `Other` stands for any nonempty value of another type. */
  datatype Meta = Nothing | Flag(flag: bool) | Number(number: int) | Fraction(fraction: real) | Words(words: string) | Other

  datatype Section = Section(
    sectionId: string, text: string, heading: string, pageNumber: Option<int>, metadata: map<string, Meta>)

  predicate AllDigits(s: string) {
    s != "" && forall i :: 0 <= i < |s| ==> '0' <= s[i] <= '9'
  }

  function DigitsValue(s: string): nat
    requires forall i :: 0 <= i < |s| ==> '0' <= s[i] <= '9'
  {
    if s == "" then 0 else 10 * DigitsValue(s[..|s| - 1]) + (s[|s| - 1] as int - '0' as int)
  }

  /** `_coerce_int(metadata.get(key))` */
  function IntAt(metadata: map<string, Meta>, key: string): Option<int> {
    if key !in metadata then None else CoerceInt(metadata[key])
  }

  function CoerceInt(value: Meta): Option<int> {
    match value
    case Number(n) => Some(n)
    case Words(s) => if AllDigits(Text.Strip(s)) then Some(DigitsValue(Text.Strip(s))) else None
    case _ => None
  }

  lemma {:induction false} DigitsOfDecimal(n: nat)
    ensures forall i :: 0 <= i < |Decimal(n)| ==> '0' <= Decimal(n)[i] <= '9'
    ensures DigitsValue(Decimal(n)) == n
  {
    DecimalDigits(n);
    var s := Decimal(n);
    if n < 10 {
      assert s[..0] == "" && s[0] == Digit(n);
    } else {
      assert s[..|s| - 1] == Decimal(n / 10) && s[|s| - 1] == Digit(n % 10);
      DigitsOfDecimal(n / 10);
    }
  }

  /** A page number that was written as a string is read back, whatever white space surrounds it. */
  lemma CoercedDecimal(n: nat, left: string, right: string)
    requires Text.AllSpace(left) && Text.AllSpace(right)
    ensures CoerceInt(Words(left + Decimal(n) + right)) == Some(n)
  {
    DecimalDigits(n);
    DigitsOfDecimal(n);
    Text.StripPadded(left, Decimal(n), right);
  }

  /** A number is taken as it is, a truth value or another value never, and a string only if it is all digits
      but for white space around them. */
  lemma OnlyNumbersCoerce(value: Meta)
    ensures CoerceInt(value).Some? ==> value.Number? || value.Words?
    ensures value.Number? ==> CoerceInt(value) == Some(value.number)
    ensures value.Words? && Text.Ink(value.words) == "" ==> CoerceInt(value) == None
    ensures value.Words? && CoerceInt(value).Some? ==>
              forall i :: 0 <= i < |value.words| ==> Text.IsSpace(value.words[i]) || '0' <= value.words[i] <= '9'
  {
    if value.Words? {
      Text.InkEmpty(value.words);
    }
    if value.Words? && CoerceInt(value).Some? {
      DigitsOrSpace(value.words);
    }
  }

  lemma {:induction false} InkMembers(s: string, c: char)
    ensures c in Text.Ink(s) <==> c in s && !Text.IsSpace(c)
  {
    if s != "" {
      InkMembers(s[1..], c);
      assert s == [s[0]] + s[1..];
    }
  }

  lemma DigitsOrSpace(s: string)
    requires AllDigits(Text.Strip(s))
    ensures forall i :: 0 <= i < |s| ==> Text.IsSpace(s[i]) || '0' <= s[i] <= '9'
  {
    var _, _ := Text.StripSlice(s);
    forall i | 0 <= i < |s| && !Text.IsSpace(s[i])
      ensures '0' <= s[i] <= '9'
    {
      InkMembers(s, s[i]);
      InkMembers(Text.Strip(s), s[i]);
    }
  }
}
