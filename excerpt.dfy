/** Word-boundary-safe shortening of free text to a character budget (`ellipsize`). */
module Excerpt {
  import opened Wrappers
  import opened Strings

  /** Rust's `char::is_whitespace`: the Unicode White_Space property. */
  predicate IsWhitespace(c: char) {
    var n := c as int;
    || (0x09 <= n <= 0x0D) || n == 0x20 || n == 0x85 || n == 0xA0 || n == 0x1680
    || (0x2000 <= n <= 0x200A) || n == 0x2028 || n == 0x2029 || n == 0x202F
    || n == 0x205F || n == 0x3000
  }

  /** Rust's `str::trim_end`: `s` without its trailing whitespace. */
  function TrimEnd(s: string): (r: string)
    ensures r <= s
    ensures forall i :: |r| <= i < |s| ==> IsWhitespace(s[i])
    ensures r == [] || !IsWhitespace(r[|r| - 1])
  {
    if s != [] && IsWhitespace(s[|s| - 1]) then TrimEnd(s[..|s| - 1]) else s
  }

  const Ellipsis: string := "..."

  /** `p` is the position of the last space in `t`. */
  predicate IsLastSpace(t: string, p: int) {
    0 <= p < |t| && t[p] == ' ' && ' ' !in t[p + 1..]
  }

  /**
   * The kept part of the first `maxChars` characters: everything before the
   * last space with trailing whitespace removed, or all of it when it holds
   * no space.
   */
  function CutAtLastSpace(taken: string): (kept: string)
    ensures kept <= taken
    ensures ' ' !in taken ==> kept == taken
    ensures ' ' in taken ==> |kept| < |taken|
    ensures forall p :: IsLastSpace(taken, p) ==>
      && kept <= taken[..p]
      && (forall i :: |kept| <= i < p ==> IsWhitespace(taken[i]))
      && (kept == [] || !IsWhitespace(kept[|kept| - 1]))
  {
    match LastIndexOf(taken, ' ')
    case Some(pos) =>
      assert forall p :: IsLastSpace(taken, p) ==> p == pos by {
        forall p | IsLastSpace(taken, p) ensures p == pos {
        }
      }
      TrimEnd(taken[..pos])
    case None => taken
  }

  /**
   * `ellipsize`: text of at most `maxChars` characters is returned as it is;
   * longer text is cut to its first `maxChars` characters, then back to the
   * last space among them (with the whitespace before that space dropped),
   * and "..." is appended.
   */
  function Ellipsize(text: string, maxChars: nat): (r: string)
    ensures |text| <= maxChars ==> r == text
    ensures |text| > maxChars ==>
      |r| >= 3 && r[|r| - 3..] == Ellipsis && |r| <= maxChars + 3 && r[..|r| - 3] <= text[..maxChars]
    ensures |text| > maxChars && ' ' !in text[..maxChars] ==> r == text[..maxChars] + Ellipsis
    ensures |text| > maxChars && ' ' in text[..maxChars] ==> |r| - 3 < maxChars
    ensures |text| > maxChars ==> forall p :: IsLastSpace(text[..maxChars], p) ==>
      var kept := r[..|r| - 3];
      && kept <= text[..p]
      && (forall i :: |kept| <= i < p ==> IsWhitespace(text[i]))
      && (kept == [] || !IsWhitespace(kept[|kept| - 1]))
  {
    if |text| <= maxChars then text
    else
      var taken := text[..maxChars];
      var kept := CutAtLastSpace(taken);
      var r := kept + Ellipsis;
      assert r[..|r| - 3] == kept;
      assert forall p :: IsLastSpace(taken, p) ==> taken[..p] == text[..p];
      r
  }

  /** The program's own examples of text within the budget, including text exactly at it. */
  lemma EllipsizeShortExamples()
    ensures Ellipsize("Short text", 50) == "Short text"
    ensures Ellipsize("Exact length text", 17) == "Exact length text"
  {
  }

  /** The program's own example of a word without spaces: it is cut at the budget. */
  lemma EllipsizeNoSpaceExample()
    ensures Ellipsize("abcdefghijk", 5) == "abcde..."
  {
    var t := "abcdefghijk";
    assert t[..5] == "abcde";
    assert ' ' !in t[..5];
  }

  /** Over the budget, the result is the kept part of the first `maxChars` characters and "...". */
  lemma EllipsizeCuts(text: string, maxChars: nat)
    requires |text| > maxChars
    ensures Ellipsize(text, maxChars) == CutAtLastSpace(text[..maxChars]) + Ellipsis
  {
  }

  /** The first twenty characters of the program's example sentence lose their last, partial word. */
  lemma SentenceCut()
    ensures CutAtLastSpace("This is a longer tex") == "This is a longer"
  {
    var taken := "This is a longer tex";
    assert taken[17..] == "tex";
    assert IsLastSpace(taken, 16);
    var kept := "This is a longer";
    assert taken[..16] == kept;
    assert !IsWhitespace(kept[15]);
    assert TrimEnd(kept) == kept;
  }

  /**
   * The program's own example of a sentence (written as two literals joined at
   * the budget): it is cut at the last space within the first twenty characters.
   */
  lemma EllipsizeSentenceExample()
    ensures Ellipsize("This is a longer tex" + "t that should be cut off gracefully.", 20) == "This is a longer..."
  {
    var taken := "This is a longer tex";
    var rest := "t that should be cut off gracefully.";
    assert |taken| == 20;
    assert (taken + rest)[..|taken|] == taken;
    SentenceCut();
    EllipsizeCuts(taken + rest, 20);
  }

  /**
   * Shortening is not idempotent: "abcd efgh" becomes "abcd...", and that,
   * being longer than the budget and holding no space, becomes "abcd....".
   */
  lemma EllipsizeNotIdempotent()
    ensures Ellipsize("abcd efgh", 5) == "abcd..."
    ensures Ellipsize(Ellipsize("abcd efgh", 5), 5) == "abcd...."
  {
    var t := "abcd efgh";
    assert t[..5] == "abcd ";
    assert IsLastSpace(t[..5], 4);
    assert t[..4] == "abcd";
    var u := "abcd...";
    assert u[..5] == "abcd.";
    assert ' ' !in u[..5];
  }

  /**
   * Text over the budget can come back unchanged: "abcde..." with budget 5.
   * So "unchanged" does not by itself mean "within the budget".
   */
  lemma EllipsizeFixedPointOverBudget()
    ensures |"abcde..."| > 5 && Ellipsize("abcde...", 5) == "abcde..."
  {
    var t := "abcde...";
    assert t[..5] == "abcde";
    assert ' ' !in t[..5];
  }
}
