/** The string handling of the analyzer: Python's `str.strip()`, the
    language option normaliser `normalize_stt_language`
    (scripts/dev/analyze-video.py:390-397), and the `" ".join` of
    transcript segment texts (lines 447 and 503). */
module Text {
  import opened Wrappers

  /** Python's `str.isspace` on one character: the Unicode white space
      characters that `str.strip()` removes. */
  predicate IsSpace(c: char) {
    var n := c as int;
    || 9 <= n <= 13         // tab, line feed, vertical tab, form feed, carriage return
    || 28 <= n <= 32        // the four information separators and space
    || n == 0x85 || n == 0xA0 || n == 0x1680
    || 0x2000 <= n <= 0x200A
    || n == 0x2028 || n == 0x2029 || n == 0x202F || n == 0x205F || n == 0x3000
  }

  /** The first index at or after `i` that is not white space (or the end
      of `s`): `str.strip()` scanning forward. */
  function SkipSpaces(s: string, i: nat): (j: nat)
    requires i <= |s|
    ensures i <= j <= |s|
    ensures forall k :: i <= k < j ==> IsSpace(s[k])
    ensures j == |s| || !IsSpace(s[j])
    decreases |s| - i
  {
    if i < |s| && IsSpace(s[i]) then SkipSpaces(s, i + 1) else i
  }

  /** The end of `s[lo..j]` once its trailing white space is dropped:
      `str.strip()` scanning backward, never past `lo`. */
  function SkipSpacesBack(s: string, lo: nat, j: nat): (k: nat)
    requires lo <= j <= |s|
    ensures lo <= k <= j
    ensures forall m :: k <= m < j ==> IsSpace(s[m])
    ensures k == lo || !IsSpace(s[k - 1])
  {
    if lo < j && IsSpace(s[j - 1]) then SkipSpacesBack(s, lo, j - 1) else j
  }

  /** Where the strip of `s` starts. */
  function StripStart(s: string): (a: nat)
    ensures a <= |s|
  {
    SkipSpaces(s, 0)
  }

  /** Where the strip of `s` ends. */
  function StripEnd(s: string): (b: nat)
    ensures StripStart(s) <= b <= |s|
  {
    SkipSpacesBack(s, StripStart(s), |s|)
  }

  /** `r` is the infix of `s` starting at `a`, and only white space of `s`
      lies outside it. */
  predicate StrippedAt(r: string, s: string, a: int) {
    && 0 <= a <= a + |r| <= |s|
    && r == s[a..a + |r|]
    && (forall i :: 0 <= i < a ==> IsSpace(s[i]))
    && (forall i :: a + |r| <= i < |s| ==> IsSpace(s[i]))
  }

  /** Neither end of `s` is white space. */
  predicate IsStripped(s: string) {
    s == [] || (!IsSpace(s[0]) && !IsSpace(s[|s| - 1]))
  }

  /** A text of white space only. */
  predicate Blank(s: string) {
    forall i :: 0 <= i < |s| ==> IsSpace(s[i])
  }

  /** `str.strip()`: `s` with white space removed at both ends. The result
      is an infix of `s` with only white space around it, has no white
      space at either end, and is empty exactly when `s` is all white
      space. */
  function Strip(s: string): (r: string)
    ensures StrippedAt(r, s, StripStart(s))
    ensures IsStripped(r)
    ensures r == [] <==> Blank(s)
  {
    var a, b := StripStart(s), StripEnd(s);
    var r := s[a..b];
    assert r != [] ==> r[0] == s[a] && r[|r| - 1] == s[b - 1];
    r
  }

  /** A string with no white space at either end is its own strip. */
  lemma StripOfStripped(s: string)
    requires IsStripped(s)
    ensures Strip(s) == s
  {
  }

  /** Stripping twice is stripping once. */
  lemma StripIdempotent(s: string)
    ensures Strip(Strip(s)) == Strip(s)
  {
    StripOfStripped(Strip(s));
  }

  /** ASCII lower-casing of one character. */
  function LowerChar(c: char): (r: char)
    ensures 'A' <= c <= 'Z' ==> r as int == c as int + 32
    ensures !('A' <= c <= 'Z') ==> r == c
  {
    if 'A' <= c <= 'Z' then (c as int + 32) as char else c
  }

  /** ASCII lower-casing of a string. For the comparisons with "auto" and
      "none" below it agrees with Python's Unicode `str.lower`: no other
      character lower-cases to one of their letters. */
  function Lower(s: string): (r: string)
    ensures |r| == |s| && forall i :: 0 <= i < |s| ==> r[i] == LowerChar(s[i])
  {
    seq(|s|, i requires 0 <= i < |s| => LowerChar(s[i]))
  }

  /** `s` spells the lower-case `word` in any mix of letter cases. */
  predicate SpellsIgnoringCase(s: string, word: string) {
    |s| == |word| && forall i :: 0 <= i < |s| ==> LowerChar(s[i]) == word[i]
  }

  /** Spelling a lower-case word in any letter case is lower-casing to it. */
  lemma SpellsIffLower(s: string, word: string)
    ensures SpellsIgnoringCase(s, word) <==> Lower(s) == word
  {
    if SpellsIgnoringCase(s, word) {
      assert forall i :: 0 <= i < |s| ==> Lower(s)[i] == word[i];
    }
  }

  /** `normalize_stt_language`: no language (automatic detection) for a
      blank option and for "auto" or "none" in any letter case, otherwise
      the option with its surrounding white space removed. */
  function NormalizeSttLanguage(value: string): (r: Option<string>)
    ensures r.None? <==>
              || Blank(value)
              || SpellsIgnoringCase(Strip(value), "auto")
              || SpellsIgnoringCase(Strip(value), "none")
    ensures r.Some? ==> r.value != [] && IsStripped(r.value) && StrippedAt(r.value, value, StripStart(value))
  {
    var normalized := Strip(value);
    if normalized == [] then None
    else
      var lowered := Lower(normalized);
      SpellsIffLower(normalized, "auto");
      SpellsIffLower(normalized, "none");
      if lowered == "auto" || lowered == "none" then None
      else Some(normalized)
  }

  /** A normalised language normalises to itself. */
  lemma NormalizeSttLanguageIdempotent(value: string)
    requires NormalizeSttLanguage(value).Some?
    ensures NormalizeSttLanguage(NormalizeSttLanguage(value).value) == NormalizeSttLanguage(value)
  {
    StripIdempotent(value);
  }

  /** An option that strips to a word other than "auto" and "none" is
      kept, stripped. */
  lemma NormalizeKeeps(value: string, stripped: string)
    requires Strip(value) == stripped && stripped != []
    requires !SpellsIgnoringCase(stripped, "auto") && !SpellsIgnoringCase(stripped, "none")
    ensures NormalizeSttLanguage(value) == Some(stripped)
  {
  }

  /** An option that strips to "auto" or "none" in any letter case asks
      for automatic detection. */
  lemma NormalizeDrops(value: string, stripped: string)
    requires Strip(value) == stripped
    requires SpellsIgnoringCase(stripped, "auto") || SpellsIgnoringCase(stripped, "none")
    ensures NormalizeSttLanguage(value) == None
  {
  }

  /** The strip of `s` is the only infix of `s` that has white space only
      around it and none at either of its ends. */
  lemma StripUnique(s: string, a: nat, b: nat)
    requires a < b <= |s|
    requires forall k :: 0 <= k < a ==> IsSpace(s[k])
    requires forall k :: b <= k < |s| ==> IsSpace(s[k])
    requires !IsSpace(s[a]) && !IsSpace(s[b - 1])
    ensures StripStart(s) == a && StripEnd(s) == b
    ensures Strip(s) == s[a..b]
  {
  }

  /** The default option "ja" is kept as it is. */
  lemma NormalizeDefaultLanguage()
    ensures NormalizeSttLanguage("ja") == Some("ja")
  {
    StripJa();
    assert !SpellsIgnoringCase("ja", "auto") && !SpellsIgnoringCase("ja", "none");
    NormalizeKeeps("ja", "ja");
  }

  /** "ja" strips to itself. */
  lemma StripJa()
    ensures Strip("ja") == "ja"
  {
    StripUnpadded("ja");
  }

  /** A string with no white space at either end strips to itself. */
  lemma StripUnpadded(s: string)
    requires s != [] && !IsSpace(s[0]) && !IsSpace(s[|s| - 1])
    ensures Strip(s) == s
  {
    StripOfStripped(s);
  }

  /** " en\n" strips to "en". */
  lemma StripPaddedEn()
    ensures Strip(" en\n") == "en"
  {
    StripUnique(" en\n", 1, 3);
    assert " en\n"[1..3] == "en";
  }

  /** A padded language code loses its padding. */
  lemma NormalizePaddedLanguage()
    ensures NormalizeSttLanguage(" en\n") == Some("en")
  {
    StripPaddedEn();
    NormalizeKeeps(" en\n", "en");
  }

  /** "  AUTO " strips to "AUTO". */
  lemma StripPaddedAuto()
    ensures Strip("  AUTO ") == "AUTO"
  {
    StripUnique("  AUTO ", 2, 6);
    assert "  AUTO "[2..6] == "AUTO";
  }

  /** "AUTO" spells "auto". */
  lemma CapitalAutoSpellsAuto()
    ensures SpellsIgnoringCase("AUTO", "auto")
  {
    assert LowerChar('A') == 'a' && LowerChar('U') == 'u';
    assert LowerChar('T') == 't' && LowerChar('O') == 'o';
  }

  /** "auto" in capitals, with padding, asks for automatic detection. */
  lemma NormalizeAutoInCapitals()
    ensures NormalizeSttLanguage("  AUTO ") == None
  {
    StripPaddedAuto();
    CapitalAutoSpellsAuto();
    NormalizeDrops("  AUTO ", "AUTO");
  }

  /** "None" spells "none". */
  lemma CapitalNoneSpellsNone()
    ensures SpellsIgnoringCase("None", "none")
  {
    assert LowerChar('N') == 'n' && LowerChar('o') == 'o';
    assert LowerChar('n') == 'n' && LowerChar('e') == 'e';
  }

  /** "None" with a capital asks for automatic detection too. */
  lemma NormalizeNoneCapitalised()
    ensures NormalizeSttLanguage("None") == None
  {
    StripUnpadded("None");
    CapitalNoneSpellsNone();
    NormalizeDrops("None", "None");
  }

  /** `sep.join(parts)`. */
  function Join(sep: string, parts: seq<string>): (r: string)
    ensures parts == [] ==> r == []
    ensures |parts| == 1 ==> r == parts[0]
    ensures |parts| > 0 ==> |parts[0]| <= |r| && r[..|parts[0]|] == parts[0]
    ensures |parts| > 0 ==> |parts[|parts| - 1]| <= |r| && r[|r| - |parts[|parts| - 1]|..] == parts[|parts| - 1]
  {
    if parts == [] then []
    else if |parts| == 1 then parts[0]
    else
      var front := Join(sep, parts[..|parts| - 1]);
      assert parts[..|parts| - 1][0] == parts[0];
      var r := front + sep + parts[|parts| - 1];
      assert r[..|parts[0]|] == front[..|parts[0]|];
      r
  }

  /** One more part is joined with one more separator before it. */
  lemma JoinSnoc(sep: string, parts: seq<string>, last: string)
    requires parts != []
    ensures Join(sep, parts + [last]) == Join(sep, parts) + sep + last
  {
    assert (parts + [last])[..|parts|] == parts;
  }

  /** Joining two non-empty lists of parts puts one separator between the
      two joins, so every part appears in order with `sep` between
      neighbours. */
  lemma {:induction false} JoinAppend(sep: string, a: seq<string>, b: seq<string>)
    requires a != [] && b != []
    ensures Join(sep, a + b) == Join(sep, a) + sep + Join(sep, b)
  {
    var front, last := b[..|b| - 1], b[|b| - 1];
    SplitLast(b);
    if front == [] {
      assert a + b == a + [last];
      JoinSnoc(sep, a, last);
    } else {
      JoinAppend(sep, a, front);
      JoinAppendStep(sep, a, front, last);
      ConcatRegroups(Join(sep, a) + sep, Join(sep, front), sep, last);
    }
  }

  /** The inductive step of `JoinAppend`: one more part at the end of `b`
      adds one separator and that part to both sides. */
  lemma JoinAppendStep(sep: string, a: seq<string>, front: seq<string>, last: string)
    requires a != [] && front != []
    ensures Join(sep, a + (front + [last])) == Join(sep, a + front) + sep + last
    ensures Join(sep, front + [last]) == Join(sep, front) + sep + last
  {
    Associates(a, front, [last]);
    JoinSnoc(sep, a + front, last);
    JoinSnoc(sep, front, last);
  }

  /** A non-empty sequence is its front followed by its last element. */
  lemma SplitLast<T>(s: seq<T>)
    requires s != []
    ensures s == s[..|s| - 1] + [s[|s| - 1]]
  {
  }

  /** Concatenation is associative. */
  lemma Associates<T>(a: seq<T>, b: seq<T>, c: seq<T>)
    ensures a + (b + c) == (a + b) + c
  {
  }

  /** Regrouping a concatenation of four strings. */
  lemma ConcatRegroups(p: string, y: string, s: string, l: string)
    ensures p + y + s + l == p + (y + s + l)
  {
  }

  /** Two parts are joined with one separator between them. */
  lemma JoinPair(sep: string, parts: seq<string>)
    requires |parts| == 2
    ensures Join(sep, parts) == parts[0] + sep + parts[1]
  {
    assert parts[..1] == [parts[0]];
  }

  /** The non-empty texts, in order. */
  function NonEmpty(texts: seq<string>): (r: seq<string>)
    ensures forall k :: 0 <= k < |r| ==> r[k] != []
    ensures forall t :: t in r <==> t in texts && t != []
    ensures r == [] <==> forall k :: 0 <= k < |texts| ==> texts[k] == []
  {
    if texts == [] then []
    else
      var front, last := texts[..|texts| - 1], texts[|texts| - 1];
      assert texts == front + [last];
      NonEmpty(front) + (if last != [] then [last] else [])
  }

  /** Each non-empty text is kept as often as it occurs, the empty one
      never. */
  lemma {:induction false} NonEmptyCounts(texts: seq<string>)
    ensures forall t :: t != [] ==> multiset(NonEmpty(texts))[t] == multiset(texts)[t]
    ensures multiset(NonEmpty(texts))[[]] == 0
  {
    if texts != [] {
      var front, last := texts[..|texts| - 1], texts[|texts| - 1];
      assert texts == front + [last];
      NonEmptyCounts(front);
      assert multiset(texts) == multiset(front) + multiset{last};
    }
  }

  /** Filtering a concatenation filters each part and keeps them in order. */
  lemma {:induction false} NonEmptyAppend(a: seq<string>, b: seq<string>)
    ensures NonEmpty(a + b) == NonEmpty(a) + NonEmpty(b)
  {
    if b != [] {
      var front, last := b[..|b| - 1], b[|b| - 1];
      assert (a + b)[..|a + b| - 1] == a + front;
      assert (a + b)[|a + b| - 1] == last;
      NonEmptyAppend(a, front);
    } else {
      assert a + b == a;
    }
  }

  /** A concatenation is blank exactly when both parts are. */
  lemma BlankConcat(a: string, b: string)
    ensures Blank(a + b) <==> Blank(a) && Blank(b)
  {
    if Blank(a + b) {
      forall i | 0 <= i < |a|
        ensures IsSpace(a[i])
      {
        assert a[i] == (a + b)[i];
      }
      forall i | 0 <= i < |b|
        ensures IsSpace(b[i])
      {
        assert b[i] == (a + b)[|a| + i];
      }
    }
    if Blank(a) && Blank(b) {
      forall i | 0 <= i < |a + b|
        ensures IsSpace((a + b)[i])
      {
        if i < |a| {
          assert (a + b)[i] == a[i];
        } else {
          assert (a + b)[i] == b[i - |a|];
        }
      }
    }
  }

  /** Two texts with a space between them are blank exactly when both
      texts are. */
  lemma BlankAroundSpace(a: string, b: string)
    ensures Blank(a + " " + b) <==> Blank(a) && Blank(b)
  {
    BlankConcat(a + " ", b);
    BlankConcat(a, " ");
    assert Blank(" ");
  }

  /** Every text is white space only. */
  predicate AllBlank(texts: seq<string>) {
    forall k :: 0 <= k < |texts| ==> Blank(texts[k])
  }

  /** A non-empty list of texts is all blank exactly when all but its last
      text are and the last one is. */
  lemma AllBlankLast(texts: seq<string>, front: seq<string>, last: string)
    requires texts == front + [last]
    ensures AllBlank(texts) <==> AllBlank(front) && Blank(last)
  {
    if AllBlank(texts) {
      forall k | 0 <= k < |front|
        ensures Blank(front[k])
      {
        assert front[k] == texts[k];
      }
      assert texts[|front|] == last;
    }
    if AllBlank(front) && Blank(last) {
      forall k | 0 <= k < |texts|
        ensures Blank(texts[k])
      {
        if k < |front| {
          assert texts[k] == front[k];
        } else {
          assert texts[k] == last;
        }
      }
    }
  }

  /** Texts joined by single spaces are blank exactly when every text is. */
  lemma {:induction false} JoinBlank(parts: seq<string>)
    ensures Blank(Join(" ", parts)) <==> AllBlank(parts)
  {
    if |parts| > 1 {
      var front, last := parts[..|parts| - 1], parts[|parts| - 1];
      JoinBlank(front);
      SplitLast(parts);
      AllBlankLast(parts, front, last);
      JoinSnoc(" ", front, last);
      BlankAroundSpace(Join(" ", front), last);
    }
  }

  /** Dropping the empty texts changes nothing about blankness. */
  lemma {:induction false} NonEmptyBlank(texts: seq<string>)
    ensures AllBlank(NonEmpty(texts)) <==> AllBlank(texts)
  {
    if texts != [] {
      var front, last := texts[..|texts| - 1], texts[|texts| - 1];
      NonEmptyBlank(front);
      assert texts == front + [last];
      AllBlankLast(texts, front, last);
      if last != [] {
        assert NonEmpty(texts) == NonEmpty(front) + [last];
        AllBlankLast(NonEmpty(texts), NonEmpty(front), last);
      } else {
        assert NonEmpty(texts) == NonEmpty(front);
      }
    }
  }

  /** The full text of a transcript: the non-empty segment texts joined by
      single spaces, then stripped. It is stripped, and empty exactly when
      every text is blank. */
  function JoinTexts(texts: seq<string>): (r: string)
    ensures IsStripped(r)
    ensures r == [] <==> AllBlank(texts)
  {
    JoinBlank(NonEmpty(texts));
    NonEmptyBlank(texts);
    Strip(Join(" ", NonEmpty(texts)))
  }

  /** Non-empty stripped parts joined by a space give a stripped string. */
  lemma JoinOfStripped(parts: seq<string>)
    requires forall k :: 0 <= k < |parts| ==> parts[k] != [] && IsStripped(parts[k])
    ensures IsStripped(Join(" ", parts))
  {
    if parts != [] {
      var joined := Join(" ", parts);
      var first, last := parts[0], parts[|parts| - 1];
      assert joined[0] == joined[..|first|][0] == first[0];
      assert joined[|joined| - 1] == joined[|joined| - |last|..][|last| - 1] == last[|last| - 1];
    }
  }

  /** When every segment text is already stripped, the final strip removes
      nothing, and the full text is empty exactly when every segment text
      is. */
  lemma JoinStrippedTexts(texts: seq<string>)
    requires forall k :: 0 <= k < |texts| ==> IsStripped(texts[k])
    ensures JoinTexts(texts) == Join(" ", NonEmpty(texts))
    ensures JoinTexts(texts) == [] <==> forall k :: 0 <= k < |texts| ==> texts[k] == []
  {
    var parts := NonEmpty(texts);
    NonEmptyStripped(texts);
    JoinOfStripped(parts);
    StripOfStripped(Join(" ", parts));
    if parts != [] {
      assert |parts[0]| <= |Join(" ", parts)|;
    }
  }

  /** Dropping the empty texts keeps the others stripped. */
  lemma {:induction false} NonEmptyStripped(texts: seq<string>)
    requires forall k :: 0 <= k < |texts| ==> IsStripped(texts[k])
    ensures forall k :: 0 <= k < |NonEmpty(texts)| ==> IsStripped(NonEmpty(texts)[k])
  {
    if texts != [] {
      var front, last := texts[..|texts| - 1], texts[|texts| - 1];
      assert texts == front + [last];
      NonEmptyStripped(front);
    }
  }
}
