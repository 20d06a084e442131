/** The `<speak>` envelope that both text-to-speech scripts put around text
    before sending it with `TextType='ssml'`. */
module Ssml {
  import opened Strings

  const SpeakOpen: string := "<speak>"
  const SpeakClose: string := "</speak>"

  /** `f'<speak>\n\t{text}\n</speak>'`: the opening tag, a newline and a tab,
      the text, a newline and the closing tag. The text can be read back
      from the middle. */
  function Envelope(text: string): (r: string)
    ensures |r| == |text| + 18
    ensures SpeakOpen <= r && r[|r| - 8..] == SpeakClose
    ensures r[9..|r| - 9] == text
  {
    "<speak>\n\t" + text + "\n</speak>"
  }

  /** `text.strip().startswith('<speak>')`. */
  predicate IsWrapped(text: string) {
    SpeakOpen <= Strip(text)
  }

  /** An envelope always passes the wrapped-text test. */
  lemma EnvelopeIsWrapped(text: string)
    ensures IsWrapped(Envelope(text))
  {
    var e := Envelope(text);
    StripUnchanged(e);
  }

  /** Wrapping only text that is not yet wrapped, as the interactive demo does
      before its synthesis request. */
  function WrapIfNeeded(text: string): (r: string)
    ensures IsWrapped(r)
    ensures IsWrapped(text) ==> r == text
  {
    EnvelopeIsWrapped(text);
    if IsWrapped(text) then text else Envelope(text)
  }

  /** Wrapping twice is wrapping once. */
  lemma WrapIfNeededIdempotent(text: string)
    ensures WrapIfNeeded(WrapIfNeeded(text)) == WrapIfNeeded(text)
  {
  }

  /** The envelope never leaves its input unchanged, so applying it to text
      that is already wrapped nests a second envelope. */
  lemma EnvelopeNotIdempotent(text: string)
    ensures Envelope(text) != text
    ensures Envelope(Envelope(text)) != Envelope(text)
  {
  }

  /** Text not yet wrapped gets exactly the unconditional envelope, and an
      envelope passes through the conditional wrapping unchanged. */
  lemma WrapIfNeededAgreesWithEnvelope(text: string)
    ensures !IsWrapped(text) ==> WrapIfNeeded(text) == Envelope(text)
    ensures WrapIfNeeded(Envelope(text)) == Envelope(text)
  {
    EnvelopeIsWrapped(text);
  }
}

/** Shell-style matching of a file name against a pattern whose only
    wildcard is `*`, as `Path.glob` applies it to the names of one directory. */
module Glob {

  predicate Match(p: string, s: string)
    decreases |p| + |s|
  {
    if p == [] then s == []
    else if p[0] == '*' then Match(p[1..], s) || (s != [] && Match(p, s[1..]))
    else s != [] && s[0] == p[0] && Match(p[1..], s[1..])
  }

  predicate StarFree(p: string) {
    forall i :: 0 <= i < |p| ==> p[i] != '*'
  }

  /** A pattern without `*` matches only itself. */
  lemma {:induction false} LiteralMatch(lit: string, s: string)
    requires StarFree(lit)
    ensures Match(lit, s) <==> s == lit
    decreases |lit|
  {
    if lit != [] && s != [] {
      LiteralMatch(lit[1..], s[1..]);
      assert s == [s[0]] + s[1..] && lit == [lit[0]] + lit[1..];
    }
  }

  /** `*` followed by a literal matches exactly the names ending in it. */
  lemma {:induction false} StarLiteralMatch(lit: string, s: string)
    requires StarFree(lit)
    ensures Match("*" + lit, s) <==> EndsWith(s, lit)
    decreases |s|
  {
    var p := "*" + lit;
    assert p[0] == '*' && p[1..] == lit;
    assert Match(p, s) == (Match(lit, s) || (s != [] && Match(p, s[1..])));
    LiteralMatch(lit, s);
    if s != [] {
      StarLiteralMatch(lit, s[1..]);
      EndsWithTail(s, lit);
    }
  }

  /** `s.endswith(suf)`. */
  predicate EndsWith(s: string, suf: string) {
    |suf| <= |s| && s[|s| - |suf|..] == suf
  }

  lemma EndsWithTail(s: string, suf: string)
    requires s != []
    ensures EndsWith(s, suf) <==> s == suf || EndsWith(s[1..], suf)
  {
    if |suf| <= |s[1..]| {
      assert s[1..][|s[1..]| - |suf|..] == s[|s| - |suf|..];
    }
    if |suf| == |s| {
      assert s[|s| - |suf|..] == s;
    }
  }

  /** A literal prefix, one `*`, a literal suffix: the name must start with
      the prefix, end with the suffix, and be long enough for both. */
  lemma {:induction false} PrefixStarSuffixMatch(pre: string, suf: string, s: string)
    requires StarFree(pre) && StarFree(suf)
    ensures Match(pre + "*" + suf, s) <==>
      |pre| + |suf| <= |s| && pre <= s && EndsWith(s, suf)
    decreases |pre|
  {
    if pre == [] {
      assert pre + "*" + suf == "*" + suf;
      StarLiteralMatch(suf, s);
    } else {
      var p := pre + "*" + suf;
      assert p[0] == pre[0] && p[1..] == pre[1..] + "*" + suf;
      if s != [] {
        PrefixStarSuffixMatch(pre[1..], suf, s[1..]);
        if |suf| <= |s[1..]| {
          assert s[1..][|s[1..]| - |suf|..] == s[|s| - |suf|..];
        }
        assert |pre| + |suf| <= |s| ==> (EndsWith(s, suf) <==> EndsWith(s[1..], suf));
        assert pre <= s <==> s[0] == pre[0] && pre[1..] <= s[1..];
      }
    }
  }
}
