/**
  What the two subcro dialogs (one on the hotel page, one on the subcro
  page) have in common: the values the form holds, `Number()` as the form
  schemas coerce a flag with it, and the on/off switch that edits a flag.
 */
module FlagSwitch {
  import opened Wrappers
  import opened Text
  import opened Json

  /**
    The subcro dialog's fields as the form holds them. The text inputs always
    hold a string; a flag is whatever value the form has for it, and may be
    unset.
   */
  datatype SubcroValues = SubcroValues(maincro: string, subcro: string, labelText: string,
                                       flagcro: Option<Json>, webcallback: Option<Json>)

  /** The values a new-subcro dialog opens with: empty texts, both flags 0. */
  const NewSubcroDefaults := SubcroValues("", "", "", Some(Num(0)), Some(Num(0)))

  // ---------------------------------------------------------------------------
  // Number()

  /**
    `Number(text)`: blank text is 0, a decimal integer with an optional sign
    (white space around it allowed) is its value, and anything else is `NaN`
    (None).
   */
  function TextNumber(s: string): (r: Option<int>)
    ensures Trim(s) == "" ==> r == Some(0)
    ensures Trim(s) != "" && AllDigits(Trim(s)) ==> r == Some(DigitsValue(Trim(s)))
    ensures r.Some? && r.value < 0 ==> Trim(s)[0] == '-'
  {
    var t := Trim(s);
    if t == "" then Some(0)
    else if |t| > 1 && t[0] == '-' && AllDigits(t[1..]) then var v: int := DigitsValue(t[1..]); Some(-v)
    else if |t| > 1 && t[0] == '+' && AllDigits(t[1..]) then Some(DigitsValue(t[1..]))
    else if AllDigits(t) then Some(DigitsValue(t))
    else None
  }

  /** `Number(v)` on a scalar; None is `NaN`, which the schemas refuse. */
  function NumberOf(v: Json): (r: Option<int>)
    ensures v.Num? ==> r == Some(v.n)
    ensures v.Null? ==> r == Some(0)
    ensures v.Bool? ==> r == Some(if v.b then 1 else 0)
    ensures v.Str? ==> r == TextNumber(v.s)
  {
    match v
    case Null => Some(0)
    case Bool(b) => Some(if b then 1 else 0)
    case Num(n) => Some(n)
    case Str(s) => TextNumber(s)
    case _ => None
  }

  /** The decimal text of every integer coerces back to it. */
  lemma TextNumberOfIntText(n: int)
    ensures TextNumber(IntText(n)) == Some(n)
  {
    var m: nat := if n < 0 then -n else n;
    var d := NatText(m);
    DigitsValueOfNatText(m);
    var s := IntText(n);
    assert !IsSpace(s[0]) && !IsSpace(s[|s| - 1]);
    assert TrimStart(s) == s;
    assert TrimEnd(s) == s;
    if n < 0 {
      assert s[1..] == d;
      assert !AllDigits(s) by {
        assert !IsDigit(s[0]);
      }
    }
  }

  // ---------------------------------------------------------------------------
  // The switch

  /** `checked={field.value === 1}`: strict equality, so only the number 1 shows as on. */
  predicate Checked(v: Json) {
    v == Num(1)
  }

  /** `onCheckedChange`: switching on writes 1, switching off writes 0. */
  function Toggle(on: bool): (r: Json)
    ensures Checked(r) <==> on
    ensures NumberOf(r) == Some(if on then 1 else 0)
  {
    if on then Num(1) else Num(0)
  }

  /**
    A flag the switch wrote reads back as the switch's position, and is one
    of the two values the switch writes; a value the switch did not write,
    such as the text "1", coerces to 1 but shows as off.
   */
  lemma SwitchRoundTrip(on: bool, v: Json)
    ensures Checked(Toggle(on)) == on && Toggle(Checked(Toggle(on))) == Toggle(on)
    ensures Checked(v) ==> v == Toggle(true)
    ensures v == Str("1") ==> NumberOf(v) == Some(1) && !Checked(v)
  {
    if v == Str("1") {
      assert IntText(1) == "1";
      TextNumberOfIntText(1);
    }
  }
}
