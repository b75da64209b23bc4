/** A row of the government tender list, shared by the list page, its table and its
    metric cards. */
module Tenders {
  import opened Common
  import opened Numeric

  /** One tender.  Text fields are None when null.  `announcedAt` is the instant, in
      milliseconds, that `announcement_date` denotes when parsed as a date. */
  datatype Tender = Tender(
    tenderName: Option<string>,
    orgName: Option<string>,
    tenderNo: Option<string>,
    procurementLevel: Option<string>,
    announcementDate: Option<string>,
    announcedAt: int,
    budget: Option<string>)

  predicate Truthy(v: Option<string>) {
    v.Some? && v.value != ""
  }

  /** `parseFloat(String(budget).replace(/,/g, ''))` of a present budget; None for NaN. */
  function ParsedBudget(b: string): Option<real> {
    ParseFloat(StripCommas(b))
  }

  lemma ParsedBudgetPlain(d: string)
    requires d != [] && AllDigits(d)
    ensures ParsedBudget(d) == Some(DigitsValue(d) as real)
  {
    FilterKeepsAll(d, NotComma);
    ParseFloatDigits(d);
  }

  /** A comma anywhere in a budget changes nothing: `1,234` reads as `1234`. */
  lemma ParsedBudgetIgnoresComma(a: string, b: string)
    ensures ParsedBudget(a + "," + b) == ParsedBudget(a + b)
  {
    FilterConcat(a + ",", b, NotComma);
    FilterConcat(a, ",", NotComma);
    FilterConcat(a, b, NotComma);
    assert Filter(",", NotComma) == [] by {
      assert !NotComma(","[0]) && ","[1..] == [];
    }
    assert StripCommas(a + "," + b) == Filter(a, NotComma) + Filter(b, NotComma);
    assert StripCommas(a + b) == Filter(a, NotComma) + Filter(b, NotComma);
  }

  // ---------------------------------------------------------------------------
  // The relational operators on strings: UTF-16 code-unit order, a proper prefix first

  /** The first UTF-16 code unit of a character: the character itself below U+10000, the
      high surrogate of its pair above. */
  function LeadUnit(c: char): (u: int)
    ensures c as int < 0x1_0000 ==> u == c as int
    ensures c as int >= 0x1_0000 ==> 0xD800 <= u <= 0xDBFF
  {
    if c as int < 0x1_0000 then c as int else 0xD800 + (c as int - 0x1_0000) / 0x400
  }

  /** Whether the code units of `x` come before those of `y`. No character below U+10000 is
      a surrogate, so two different characters already differ in their first unit unless
      both are pairs with the same high surrogate; then the low surrogates, and with them
      the code points, decide. */
  predicate UnitLess(x: char, y: char) {
    LeadUnit(x) < LeadUnit(y) || (LeadUnit(x) == LeadUnit(y) && x < y)
  }

  /** Character by character the code-unit order agrees with the code-point order except
      between a character above U+FFFF and one in U+E000..U+FFFF (the full-width forms among
      them), where the pair's surrogate sorts first. */
  lemma UnitLessVersusCodePoint(x: char, y: char)
    ensures (x as int < 0xD800 || y as int < 0xD800) ==> (UnitLess(x, y) <==> x < y)
    ensures x as int >= 0x1_0000 && 0xE000 <= y as int <= 0xFFFF ==> UnitLess(x, y) && y < x
  {
  }

  function StrLess(a: string, b: string): bool {
    if a == [] then b != []
    else if b == [] then false
    else if a[0] != b[0] then UnitLess(a[0], b[0])
    else StrLess(a[1..], b[1..])
  }

  lemma {:induction false} StrLessIrreflexive(a: string)
    ensures !StrLess(a, a)
  {
    if a != [] {
      StrLessIrreflexive(a[1..]);
    }
  }

  lemma {:induction false} StrLessTransitive(a: string, b: string, c: string)
    requires StrLess(a, b) && StrLess(b, c)
    ensures StrLess(a, c)
  {
    if a != [] && b != [] && c != [] && a[0] == b[0] && b[0] == c[0] {
      StrLessTransitive(a[1..], b[1..], c[1..]);
    }
  }

  /** Two different strings are ordered one way or the other. */
  lemma {:induction false} StrLessTotal(a: string, b: string)
    requires a != b
    ensures StrLess(a, b) || StrLess(b, a)
  {
    if a != [] && b != [] && a[0] == b[0] {
      assert a == [a[0]] + a[1..] && b == [b[0]] + b[1..];
      StrLessTotal(a[1..], b[1..]);
    }
  }
}
