/** `escape_quotes` and the replacement chain of `normalize_text`. The Unicode
    NFKD step that opens `normalize_text` is a foreign library call and is
    taken as a function parameter. */
module Text {
  import opened PyStr

  /** The six-character text `\u0027` that stands in for a single quote. */
  const QuoteEscape: string := "\\u0027"

  /** The mojibake patterns of line 19, typed with precomposed characters:
      U+201A U+00C4 followed by U+00F4 (apostrophe), U+00EE (em dash) or
      U+00B6 (ellipsis). */
  const MojibakeApostrophe: string := "\U{201A}\U{00C4}\U{00F4}"
  const MojibakeDash: string := "\U{201A}\U{00C4}\U{00EE}"
  const MojibakeEllipsis: string := "\U{201A}\U{00C4}\U{00B6}"

  /** The patterns of line 20: the same dash and apostrophe mojibake in
      canonically decomposed form (U+00C4 as `A` + U+0308, U+00EE as `i` +
      U+0302, U+00F4 as `o` + U+0302), which is what NFKD produces. */
  const DecomposedDash: string := "\U{201A}A\U{0308}i\U{0302}"
  const DecomposedApostrophe: string := "\U{201A}A\U{0308}o\U{0302}"

  /** The decomposed ellipsis mojibake, for which the chain has no entry. */
  const DecomposedEllipsis: string := "\U{201A}A\U{0308}\U{00B6}"

  const EmDash: char := '\U{2014}'

  // ------------------------------------------------------------ escape_quotes

  /** Every single quote of `text` replaced by the escape text. */
  function EscapeQuotes(text: string): (r: string)
    ensures '\'' !in r
    ensures '\'' !in text ==> r == text
    ensures |r| == |text| + 5 * CountChar(text, '\'')
  {
    ReplaceRemoves(text, "'", QuoteEscape);
    ContainsSingle(Replace(text, "'", QuoteEscape), '\'');
    ContainsSingle(text, '\'');
    ReplaceCharLength(text, '\'', QuoteEscape);
    ReplaceAbsent(text, "'", QuoteEscape);
    Replace(text, "'", QuoteEscape)
  }

  /** Reading `\u0027` back as a quote: the inverse of `EscapeQuotes`. */
  function UnescapeQuotes(text: string): string {
    Replace(text, QuoteEscape, "'")
  }

  /** Escaping a non-empty text escapes its first character and then the rest. */
  lemma EscapeQuotesCons(text: string)
    requires text != []
    ensures EscapeQuotes(text) ==
      (if text[0] == '\'' then QuoteEscape else [text[0]]) + EscapeQuotes(text[1..])
  {
    assert IsPrefix("'", text) <==> text[0] == '\'';
  }

  /** Escaping loses nothing on a text that does not already contain the
      escape sequence itself. */
  lemma {:induction false} EscapeRoundTrip(text: string)
    requires !Contains(text, QuoteEscape)
    ensures UnescapeQuotes(EscapeQuotes(text)) == text
    decreases |text|
  {
    if text != [] {
      EscapeQuotesCons(text);
      var rest := EscapeQuotes(text[1..]);
      assert !Contains(text[1..], QuoteEscape);
      EscapeRoundTrip(text[1..]);
      if text[0] == '\'' {
        assert IsPrefix(QuoteEscape, QuoteEscape + rest);
        assert (QuoteEscape + rest)[|QuoteEscape|..] == rest;
      } else {
        var e := [text[0]] + rest;
        var tail := QuoteEscape[1..];
        if IsPrefix(tail, rest) {
          PrefixOfReplace(text[1..], "'", QuoteEscape, tail);
        }
        PrefixCons(text[0], rest, QuoteEscape);
        PrefixCons(text[0], text[1..], QuoteEscape);
        assert [text[0]] + text[1..] == text;
        assert !IsPrefix(QuoteEscape, text);
        assert !IsPrefix(QuoteEscape, e);
        assert e[1..] == rest;
      }
    }
  }

  /** The escape is not injective: a quote and the literal text `\u0027`
      produce the same output. */
  lemma EscapeNotInjective()
    ensures "'" != QuoteEscape && EscapeQuotes("'") == EscapeQuotes(QuoteEscape)
  {
    assert '\'' !in QuoteEscape;
    assert IsPrefix("'", "'") && "'"[1..] == "";
  }

  // ----------------------------------------------------------- normalize_text

  /** Line 19: the precomposed mojibake apostrophe, em dash and ellipsis. */
  function RepairMojibake(text: string): string {
    Replace(Replace(Replace(text, MojibakeApostrophe, "'"), MojibakeDash, "--"), MojibakeEllipsis, "...")
  }

  /** Line 20: the decomposed mojibake em dash and apostrophe. */
  function RepairDecomposedMojibake(text: string): string {
    Replace(Replace(text, DecomposedDash, "-"), DecomposedApostrophe, "'")
  }

  /** Line 21: the em dash becomes two hyphens. */
  function ReplaceEmDash(text: string): string {
    Replace(text, [EmDash], "--")
  }

  /** Lines 19 to 21, applied to the NFKD form of the text. */
  function ReplacementChain(text: string): string {
    ReplaceEmDash(RepairDecomposedMojibake(RepairMojibake(text)))
  }

  /** None of the sequences the chain targets occurs in `text`. */
  predicate Repaired(text: string) {
    && !Contains(text, MojibakeApostrophe)
    && !Contains(text, MojibakeDash)
    && !Contains(text, MojibakeEllipsis)
    && !Contains(text, DecomposedDash)
    && !Contains(text, DecomposedApostrophe)
    && EmDash !in text
  }

  /** `normalize_text`: NFKD (`nfkd`), then the replacement chain. */
  function NormalizeText(nfkd: string -> string, text: string): (r: string)
    ensures Repaired(r)
  {
    ChainRepairs(nfkd(text));
    ReplacementChain(nfkd(text))
  }

  /** `rep` shares no character with any of `qs`, none of which occurs in `s`;
      then none occurs after replacing `pat` either. */
  lemma ReplaceKeepsAllAbsent(s: string, pat: string, rep: string, qs: seq<string>)
    requires pat != [] && rep != []
    requires forall i :: 0 <= i < |qs| ==> qs[i] != [] && Disjoint(rep, qs[i]) && !Contains(s, qs[i])
    ensures forall i :: 0 <= i < |qs| ==> !Contains(Replace(s, pat, rep), qs[i])
  {
    forall i | 0 <= i < |qs|
      ensures !Contains(Replace(s, pat, rep), qs[i])
    {
      ReplaceKeepsAbsent(s, pat, rep, qs[i]);
    }
  }

  /** After line 19 none of its three patterns occurs. */
  lemma RepairMojibakeClears(text: string)
    ensures !Contains(RepairMojibake(text), MojibakeApostrophe)
    ensures !Contains(RepairMojibake(text), MojibakeDash)
    ensures !Contains(RepairMojibake(text), MojibakeEllipsis)
  {
    var t1 := Replace(text, MojibakeApostrophe, "'");
    var t2 := Replace(t1, MojibakeDash, "--");
    ReplaceRemoves(text, MojibakeApostrophe, "'");
    ReplaceRemoves(t1, MojibakeDash, "--");
    ReplaceKeepsAbsent(t1, MojibakeDash, "--", MojibakeApostrophe);
    ReplaceRemoves(t2, MojibakeEllipsis, "...");
    ReplaceKeepsAllAbsent(t2, MojibakeEllipsis, "...", [MojibakeApostrophe, MojibakeDash]);
    assert [MojibakeApostrophe, MojibakeDash][0] == MojibakeApostrophe;
    assert [MojibakeApostrophe, MojibakeDash][1] == MojibakeDash;
  }

  /** The whole chain leaves none of its targets behind. */
  lemma ChainRepairs(text: string)
    ensures Repaired(ReplacementChain(text))
  {
    var t3 := RepairMojibake(text);
    RepairMojibakeClears(text);
    var qs3 := [MojibakeApostrophe, MojibakeDash, MojibakeEllipsis];
    var t4 := Replace(t3, DecomposedDash, "-");
    ReplaceRemoves(t3, DecomposedDash, "-");
    ReplaceKeepsAllAbsent(t3, DecomposedDash, "-", qs3);
    var qs4 := qs3 + [DecomposedDash];
    var t5 := Replace(t4, DecomposedApostrophe, "'");
    ReplaceRemoves(t4, DecomposedApostrophe, "'");
    ReplaceKeepsAllAbsent(t4, DecomposedApostrophe, "'", qs4);
    var qs5 := qs4 + [DecomposedApostrophe];
    var t6 := Replace(t5, [EmDash], "--");
    ReplaceRemoves(t5, [EmDash], "--");
    ReplaceKeepsAllAbsent(t5, [EmDash], "--", qs5);
    ContainsSingle(t6, EmDash);
    assert qs5[0] == MojibakeApostrophe && qs5[1] == MojibakeDash && qs5[2] == MojibakeEllipsis;
    assert qs5[3] == DecomposedDash && qs5[4] == DecomposedApostrophe;
  }

  /** On a text with none of its targets the chain changes nothing. */
  lemma ChainFixesRepaired(text: string)
    requires Repaired(text)
    ensures ReplacementChain(text) == text
  {
    ReplaceAbsent(text, MojibakeApostrophe, "'");
    ReplaceAbsent(text, MojibakeDash, "--");
    ReplaceAbsent(text, MojibakeEllipsis, "...");
    ReplaceAbsent(text, DecomposedDash, "-");
    ReplaceAbsent(text, DecomposedApostrophe, "'");
    ContainsSingle(text, EmDash);
    ReplaceAbsent(text, [EmDash], "--");
  }

  /** Normalizing twice is normalizing once, as far as the chain goes. */
  lemma ChainIdempotent(text: string)
    ensures ReplacementChain(ReplacementChain(text)) == ReplacementChain(text)
  {
    ChainRepairs(text);
    ChainFixesRepaired(ReplacementChain(text));
  }

  /** A text with no U+201A and no em dash passes through unchanged. */
  lemma ChainIdentityOnPlainText(text: string)
    requires '\U{201A}' !in text && EmDash !in text
    ensures ReplacementChain(text) == text
  {
    if Contains(text, MojibakeApostrophe) { ContainsCharOf(text, MojibakeApostrophe, 0); }
    if Contains(text, MojibakeDash) { ContainsCharOf(text, MojibakeDash, 0); }
    if Contains(text, MojibakeEllipsis) { ContainsCharOf(text, MojibakeEllipsis, 0); }
    if Contains(text, DecomposedDash) { ContainsCharOf(text, DecomposedDash, 0); }
    if Contains(text, DecomposedApostrophe) { ContainsCharOf(text, DecomposedApostrophe, 0); }
    ChainFixesRepaired(text);
  }

  /** Line 19 does nothing to a text without a precomposed U+00C4, which is
      the case for every NFKD result (NFKD decomposes U+00C4). */
  lemma RepairMojibakeInertWithoutPrecomposed(text: string)
    requires '\U{00C4}' !in text
    ensures RepairMojibake(text) == text
  {
    if Contains(text, MojibakeApostrophe) { ContainsCharOf(text, MojibakeApostrophe, 1); }
    ReplaceAbsent(text, MojibakeApostrophe, "'");
    if Contains(text, MojibakeDash) { ContainsCharOf(text, MojibakeDash, 1); }
    ReplaceAbsent(text, MojibakeDash, "--");
    if Contains(text, MojibakeEllipsis) { ContainsCharOf(text, MojibakeEllipsis, 1); }
    ReplaceAbsent(text, MojibakeEllipsis, "...");
  }

  /** Line 20 repairs the decomposed em-dash mojibake into a single hyphen. */
  lemma DecomposedDashOutcome()
    ensures ReplacementChain(DecomposedDash) == "-"
  {
    RepairMojibakeInertWithoutPrecomposed(DecomposedDash);
    assert IsPrefix(DecomposedDash, DecomposedDash);
    assert Replace(DecomposedDash, DecomposedDash, "-") == "-";
    NotContainsPastFront("-", DecomposedApostrophe);
    ReplaceAbsent("-", DecomposedApostrophe, "'");
    ContainsSingle("-", EmDash);
    ReplaceAbsent("-", [EmDash], "--");
  }

  /** Line 20 repairs the decomposed apostrophe mojibake into a quote. */
  lemma DecomposedApostropheOutcome()
    ensures ReplacementChain(DecomposedApostrophe) == "'"
  {
    RepairMojibakeInertWithoutPrecomposed(DecomposedApostrophe);
    assert DecomposedApostrophe[3] != DecomposedDash[3];
    NotContainsPastFront(DecomposedApostrophe, DecomposedDash);
    ReplaceAbsent(DecomposedApostrophe, DecomposedDash, "-");
    assert IsPrefix(DecomposedApostrophe, DecomposedApostrophe);
    assert Replace(DecomposedApostrophe, DecomposedApostrophe, "'") == "'";
    ContainsSingle("'", EmDash);
    ReplaceAbsent("'", [EmDash], "--");
  }

  /** The decomposed ellipsis mojibake has no entry on line 20 and passes
      through the whole chain unchanged. */
  lemma DecomposedEllipsisOutcome()
    ensures ReplacementChain(DecomposedEllipsis) == DecomposedEllipsis
  {
    RepairMojibakeInertWithoutPrecomposed(DecomposedEllipsis);
    NotContainsPastFront(DecomposedEllipsis, DecomposedDash);
    ReplaceAbsent(DecomposedEllipsis, DecomposedDash, "-");
    NotContainsPastFront(DecomposedEllipsis, DecomposedApostrophe);
    ReplaceAbsent(DecomposedEllipsis, DecomposedApostrophe, "'");
    ContainsSingle(DecomposedEllipsis, EmDash);
    ReplaceAbsent(DecomposedEllipsis, [EmDash], "--");
  }
}
