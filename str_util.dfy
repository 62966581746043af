/**
 * The two text-splice primitives of `ReadLine.StrUtil`.
 * Text is a sequence of UTF-16 code units, modelled as `string`.
 */
module StrUtil {

  /**
   * `remove(text, from, to)`: delete the half-open range [from, to).
   * Quirk of the source: a text of length 0 or 1 always yields the empty
   * string, even when the range is empty.
   */
  function Remove(text: string, from: nat, to: nat): (r: string)
    requires from <= to <= |text|
    ensures |text| <= 1 ==> r == ""
    ensures |text| >= 2 ==> r == text[..from] + text[to..]
    ensures |text| >= 2 ==> |r| == |text| - (to - from)
  {
    if |text| <= 1 || |text| <= to - from then
      ""
    else if from == 0 then
      text[to..]
    else
      var left := text[..from];
      var right := text[to..];
      left + right
  }

  /**
   * `insert(text, idx, ins)`: splice `ins` in before position `idx`; an index
   * at or past the end appends.
   */
  function Insert(text: string, idx: nat, ins: string): (r: string)
    ensures idx <= |text| ==> r == text[..idx] + ins + text[idx..]
    ensures idx >= |text| ==> r == text + ins
    ensures |r| == |text| + |ins|
  {
    if idx == 0 then
      ins + text
    else if idx >= |text| then
      text + ins
    else
      var left := text[..idx];
      var right := text[idx..];
      left + ins + right
  }

  /** Inserting nothing is the identity, at every index. */
  lemma InsertEmpty(text: string, idx: nat)
    ensures Insert(text, idx, "") == text
  {
    if idx <= |text| {
      assert text[..idx] + "" + text[idx..] == text;
    }
  }

  /** Removing an empty range is the identity only on texts of length two or more. */
  lemma RemoveEmptyRange(text: string, idx: nat)
    requires idx <= |text|
    ensures |text| >= 2 ==> Remove(text, idx, idx) == text
    ensures |text| <= 1 ==> Remove(text, idx, idx) == ""
  {
    if |text| >= 2 {
      assert text[..idx] + text[idx..] == text;
    }
  }

  /** The quirk made concrete: removing nothing from a one-unit text loses it. */
  lemma RemoveEmptyRangeOnSingleUnit()
    ensures Remove("x", 0, 0) == ""
    ensures Insert(Remove("x", 0, 0), 0, "") != "x"
  {
  }

  /** Splice round trip: putting a removed non-empty range back restores the text. */
  lemma InsertRemoveRoundTrip(text: string, from: nat, to: nat)
    requires from < to <= |text|
    ensures Insert(Remove(text, from, to), from, text[from..to]) == text
  {
    var r := Remove(text, from, to);
    if |text| >= 2 {
      assert r[..from] == text[..from];
      assert r[from..] == text[to..];
      assert text[..from] + text[from..to] + text[to..] == text;
    } else {
      assert from == 0 && to == 1 && text[0..1] == text;
    }
  }

  /** Removing a range and putting back what was there, on an empty range of a long text. */
  lemma InsertRemoveRoundTripEmptyRange(text: string, idx: nat)
    requires idx <= |text| && |text| >= 2
    ensures Insert(Remove(text, idx, idx), idx, text[idx..idx]) == text
  {
    RemoveEmptyRange(text, idx);
    InsertEmpty(text, idx);
  }
}
