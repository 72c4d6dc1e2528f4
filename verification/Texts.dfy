/** Texts and the pieces found in them. A character stands for a byte. */
module Texts {

  /** The character at `p`; a zero ends the text. */
  function At(text: string, p: nat): char {
    if p < |text| then text[p] else '\0'
  }

  /** The text goes on with `s` at `p`. */
  predicate HasAt(text: string, p: nat, s: string) {
    p + |s| <= |text| && text[p..p + |s|] == s
  }

  lemma HasSplit(text: string, p: nat, a: string, b: string)
    ensures HasAt(text, p, a + b) <==> HasAt(text, p, a) && HasAt(text, p + |a|, b)
  {
    if p + |a| + |b| <= |text| {
      var all := text[p..p + |a + b|];
      assert all[..|a|] == text[p..p + |a|] && all[|a|..] == text[p + |a|..p + |a| + |b|];
      assert all == a + b <==> all[..|a|] == a && all[|a|..] == b;
    }
  }

  lemma HasFirst(text: string, p: nat, s: string)
    requires HasAt(text, p, s) && s != ""
    ensures At(text, p) == s[0] && p < |text|
  {
  }

  lemma HasNth(text: string, p: nat, s: string, k: nat)
    requires HasAt(text, p, s) && k < |s|
    ensures At(text, p + k) == s[k]
  {
    assert text[p..p + |s|][k] == text[p + k];
  }

  lemma HasPrefix(text: string, p: nat, s: string, t: string)
    requires HasAt(text, p, s) && t <= s
    ensures HasAt(text, p, t)
  {
    assert s == t + s[|t|..];
    HasSplit(text, p, t, s[|t|..]);
  }

  lemma HasInside(text: string, p: nat, s: string)
    requires HasAt(text, p, s)
    ensures p + |s| <= |text|
  {
  }
}
