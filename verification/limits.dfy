/** The `LimitsManagement` page of frontend/.../App.js: the edit field for one
    type's monthly limit, the guard `handleSave` applies, and the value it
    sends to the backend's `update_limit`. */
module Limits {
  import opened Base
  import opened Text
  import opened Models
  import opened Views

  /** A fraction part as a number field writes it: nothing, or a point
      followed by at least one digit. */
  predicate FractionPart(s: string) {
    s == "" || (|s| >= 2 && s[0] == '.' && AllDigits(s[1..]))
  }

  /** The strings a `type="number"` field reports as its value: empty, or an
      optional minus sign, digits and an optional fraction, at least one
      digit in all. */
  predicate NumberFieldText(s: string) {
    s == "" ||
    var body := if s[0] == '-' then s[1..] else s;
    var digits := DigitPrefix(body);
    FractionPart(body[|digits|..]) && (|digits| >= 1 || |body| > |digits|)
  }

  type FieldText = s: string | NumberFieldText(s) witness ""

  /** What `editValue` holds: the stored limit itself, as `handleEdit` put it
      there, or the field's text once the user has typed. */
  datatype EditValue = Number(n: int) | Typed(text: FieldText)

  /** `handleEdit`: `currentLimit || ''`, so a missing or zero limit starts
      the field empty. */
  function HandleEdit(currentLimit: Option<int>): (v: EditValue)
    ensures v == Typed("") <==> currentLimit.GetOr(0) == 0
    ensures v.Number? ==> currentLimit == Some(v.n) && v.n != 0
    ensures currentLimit.GetOr(0) != 0 ==> v == Number(currentLimit.value)
  {
    if currentLimit.GetOr(0) == 0 then Typed("") else Number(currentLimit.value)
  }

  predicate HasNonZeroDigit(s: string) {
    exists i | 0 <= i < |s| :: IsDigit(s[i]) && s[i] != '0'
  }

  /** `editValue < 0`. A number compares directly; a string is converted by
      `Number()` first, which reads `''` as 0. A number field's text stands
      for a negative number exactly when it has a minus sign and a non-zero
      digit (`-0` and `-0.0` are negative zero, which is not below 0).
      The text is read as an exact decimal: `Number()` rounds to a double,
      so a negative value nearer zero than the smallest double (`-0.`
      followed by several hundred zeros and a `1`) becomes -0 on the page,
      which then sends 0, while this predicate calls it below zero. */
  predicate BelowZero(v: EditValue) {
    match v
    case Number(n) => n < 0
    case Typed(t) => |t| > 0 && t[0] == '-' && HasNonZeroDigit(t)
  }

  /** `parseInt(editValue) || 0`: the integer prefix, with NaN and 0 both
      giving 0. `parseInt` of a number reads its decimal form back, so a
      stored integer comes through unchanged. */
  function SentLimit(v: EditValue): (r: int) {
    match v
    case Number(n) => n
    case Typed(t) => ParseIntPrefix(t).GetOr(0)
  }

  datatype SaveOutcome = Refused | Sent(limit: int)

  /** `handleSave`: a negative value is refused with a message and no
      request; anything else is sent as `parseInt(editValue) || 0`. */
  function HandleSave(v: EditValue): (r: SaveOutcome)
    ensures r.Refused? <==> BelowZero(v)
  {
    if BelowZero(v) then Refused else Sent(SentLimit(v))
  }

  /** The query string value `?limitMonth=${limitMonth}`. */
  function QueryValue(limit: int): (r: string) {
    DecimalString(limit)
  }

  lemma {:induction false} NoNonZeroDigitIsZero(p: string)
    requires AllDigits(p) && !HasNonZeroDigit(p)
    ensures DigitsValue(p) == 0
  {
    if |p| > 0 {
      var q := p[..|p| - 1];
      assert !HasNonZeroDigit(q) by {
        forall i | 0 <= i < |q| ensures !(IsDigit(q[i]) && q[i] != '0') {
          assert q[i] == p[i];
        }
      }
      NoNonZeroDigitIsZero(q);
      assert p[|p| - 1] == '0';
    }
  }

  lemma {:induction false} NonZeroDigitIsPositive(p: string)
    requires AllDigits(p) && HasNonZeroDigit(p)
    ensures DigitsValue(p) > 0
  {
    var q := p[..|p| - 1];
    if p[|p| - 1] == '0' {
      assert HasNonZeroDigit(q) by {
        var i :| 0 <= i < |p| && IsDigit(p[i]) && p[i] != '0';
        assert q[i] == p[i];
      }
      NonZeroDigitIsPositive(q);
    }
  }

  /** Whatever the number field holds, `handleSave` never sends a negative
      limit: a negative value is refused, and a minus sign in front of
      zeros reads as 0. */
  lemma SaveNeverNegative(v: EditValue)
    ensures HandleSave(v).Sent? ==> HandleSave(v).limit >= 0
  {
    if v.Typed? && HandleSave(v).Sent? {
      var t := v.text;
      if |t| > 0 && t[0] == '-' {
        var digits := DigitPrefix(t[1..]);
        assert !HasNonZeroDigit(digits) by {
          forall i | 0 <= i < |digits| ensures !(IsDigit(digits[i]) && digits[i] != '0') {
            assert digits[i] == t[i + 1];
          }
        }
        NoNonZeroDigitIsZero(digits);
      }
    }
  }

  /** For a whole number typed into the field, `handleSave` refuses exactly
      the negative ones and sends the others unchanged. */
  lemma WholeNumberSaved(t: FieldText)
    requires IsNumeral(t) && t[0] != '+'
    ensures HandleSave(Typed(t)) == if ParseDecimal(t).value < 0 then Refused else Sent(ParseDecimal(t).value)
  {
    ParseIntPrefixOfNumeral(t);
    if t[0] == '-' {
      var digits := t[1..];
      DigitPrefixOfDigits(digits);
      if HasNonZeroDigit(t) {
        assert HasNonZeroDigit(digits) by {
          var i :| 0 <= i < |t| && IsDigit(t[i]) && t[i] != '0';
          assert digits[i - 1] == t[i];
        }
        NonZeroDigitIsPositive(digits);
      } else {
        assert !HasNonZeroDigit(digits) by {
          forall i | 0 <= i < |digits| ensures !(IsDigit(digits[i]) && digits[i] != '0') {
            assert digits[i] == t[i + 1];
          }
        }
        NoNonZeroDigitIsZero(digits);
      }
    }
  }

  /** Opening the editor and saving without typing: a missing limit is sent
      as 0, a positive one unchanged, and a negative one, which the backend
      accepts, can not be saved back. */
  lemma EditThenSave(currentLimit: Option<int>)
    ensures HandleSave(HandleEdit(currentLimit)) ==
              if currentLimit.GetOr(0) < 0 then Refused else Sent(currentLimit.GetOr(0))
  {
  }

  /** A limit the page sends reaches `update_limit` as a decimal it parses
      back to the same number; for an existing type the update succeeds and
      the type now holds that limit. */
  lemma SentLimitIsStored(s: Store, typeId: int, v: EditValue)
    requires HasType(s.types, typeId)
    requires HandleSave(v).Sent? && FitsInt32(HandleSave(v).limit)
    ensures var r := UpdateLimit(s, typeId, Some(QueryValue(HandleSave(v).limit)));
            && r.response.Ok?
            && r.response.value.limitMonth == Some(HandleSave(v).limit)
            && HandleSave(v).limit >= 0
  {
    var n := HandleSave(v).limit;
    DecimalRoundTrip(n);
    SaveNeverNegative(v);
  }
}
