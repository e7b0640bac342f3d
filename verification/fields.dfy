/** What both screens read from a row: the header names they look up, the
    trimmed label, and the spend-only rule that drops income and transfers. */
module Fields {
  import opened Text
  import opened Csv

  const SenderHeader: string := "Sender"
  const DateHeader: string := "Date"
  const AmountHeader: string := "Amount"
  const LabelHeader: string := "Label"

  /** The label of a row without one, and the group of a blank label. */
  const Unknown: string := "Unknown"

  const PersonalIncome: string := "personal-income"
  const NonPayment: string := "non-payment"

  /** `(row["Label"] ?: "Unknown").trim()`. */
  function LabelOf(row: Row): (name: string)
    ensures name == [] || (!IsWhitespace(name[0]) && !IsWhitespace(name[|name| - 1]))
    ensures LabelHeader !in row ==> name == Unknown
    ensures LabelHeader in row ==> name == Trim(row[LabelHeader])
  {
    if LabelHeader in row then Trim(row[LabelHeader])
    else
      TrimUnknown();
      Unknown
  }

  lemma TrimUnknown()
    ensures Trim(Unknown) == Unknown
  {
    assert !IsWhitespace(Unknown[0]);
    assert !IsWhitespace(Unknown[|Unknown| - 1]);
  }

  /** The spend-only rule: a label that lower-cases to `personal-income` or
      `non-payment` is not spending. */
  predicate IsExcluded(name: string) {
    var norm := Lower(name);
    norm == PersonalIncome || norm == NonPayment
  }

  /** `a` spelled as `b` with some lower-case ASCII letters written in upper
      case. */
  predicate SameUpToAsciiCase(a: string, b: string) {
    && |a| == |b|
    && forall i :: 0 <= i < |a| ==>
         a[i] == b[i] || ('A' <= a[i] <= 'Z' && a[i] as int + 32 == b[i] as int)
  }

  /** No upper-case ASCII letter. */
  predicate NoUpper(t: string) {
    forall i :: 0 <= i < |t| ==> !('A' <= t[i] <= 'Z')
  }

  /** The spend-only rule spelled out: a label is excluded exactly when it is
      `personal-income` or `non-payment` with any of its letters in upper
      case, and nothing else. */
  lemma ExcludedSpellings(name: string)
    ensures IsExcluded(name) <==>
              SameUpToAsciiCase(name, PersonalIncome) || SameUpToAsciiCase(name, NonPayment)
  {
    assert NoUpper(PersonalIncome);
    assert NoUpper(NonPayment);
    LowerMatches(name, PersonalIncome);
    LowerMatches(name, NonPayment);
  }

  /** Lower-casing gives a text without upper-case letters exactly when the
      input is that text up to the case of its letters. */
  lemma LowerMatches(a: string, t: string)
    requires NoUpper(t)
    ensures Lower(a) == t <==> SameUpToAsciiCase(a, t)
  {
    if Lower(a) == t {
      forall i | 0 <= i < |a|
        ensures a[i] == t[i] || ('A' <= a[i] <= 'Z' && a[i] as int + 32 == t[i] as int)
      {
        assert t[i] == LowerChar(a[i]);
      }
    }
    if SameUpToAsciiCase(a, t) {
      forall i | 0 <= i < |a|
        ensures Lower(a)[i] == t[i]
      {
        assert !('A' <= t[i] <= 'Z');
      }
      assert Lower(a) == t;
    }
  }

  /** `label.ifBlank { "Unknown" }`: the group a label falls in. */
  function OrUnknown(name: string): (g: string)
    ensures !IsBlank(g)
    ensures !IsBlank(name) ==> g == name
    ensures IsBlank(name) ==> g == Unknown
  {
    if IsBlank(name) then
      assert !IsWhitespace(Unknown[0]);
      Unknown
    else name
  }
}
