/** The line-ending rewrite of a whole text: `text.Replace("\r\n", "\n").Replace("\n", target)`.
    `Normalize` is an independent single-pass reading of the same rewrite, and every
    property of the conversion is proved about it. */
module EolText {
  import opened DotNetString

  const LF: string := "\n"
  const CRLF: string := "\r\n"

  /** The conversion exactly as the program writes it. A target no longer than one
      character never lengthens the text. */
  function Convert(text: string, target: string): (r: string)
    ensures |target| <= 1 ==> |r| <= |text|
  {
    Replace(Replace(text, CRLF, LF), LF, target)
  }

  /** One pass from left to right: a CRLF pair or a lone LF becomes `target`,
      every other character (a bare CR included) is kept. */
  function Normalize(s: string, target: string): string
    decreases |s|
  {
    if s == [] then []
    else if |s| >= 2 && s[0] == '\r' && s[1] == '\n' then target + Normalize(s[2..], target)
    else if s[0] == '\n' then target + Normalize(s[1..], target)
    else [s[0]] + Normalize(s[1..], target)
  }

  /** Number of occurrences of `c` in `s`. */
  function Count(s: string, c: char): nat
    decreases |s|
  {
    if s == [] then 0 else (if s[0] == c then 1 else 0) + Count(s[1..], c)
  }

  /** `s` with every CR and LF deleted. */
  function StripEol(s: string): string
    decreases |s|
  {
    if s == [] then [] else (if s[0] in "\r\n" then [] else [s[0]]) + StripEol(s[1..])
  }

  /** Every LF is immediately preceded by a CR: the text is entirely in CRLF form. */
  predicate LfPrecededByCr(s: string)
  {
    forall i :: 0 <= i < |s| && s[i] == '\n' ==> 0 < i && s[i - 1] == '\r'
  }

  /** The text holds no CRLF pair. */
  predicate NoCrlf(s: string)
  {
    forall i :: 0 <= i < |s| - 1 ==> !(s[i] == '\r' && s[i + 1] == '\n')
  }

  /** The text holds no CR followed by a CRLF pair. */
  predicate NoCrCrlf(s: string)
  {
    forall i :: 0 <= i < |s| - 2 ==> !(s[i] == '\r' && s[i + 1] == '\r' && s[i + 2] == '\n')
  }

  // ---------------------------------------------------------------------------
  // The two-step Replace chain is the single-pass rewrite

  lemma FirstStepAtCrlf(s: string)
    requires |s| >= 2 && s[0] == '\r' && s[1] == '\n'
    ensures Replace(s, CRLF, LF) == LF + Replace(s[2..], CRLF, LF)
  {
    assert s[..2] == CRLF;
  }

  lemma FirstStepOther(s: string)
    requires s != [] && !(|s| >= 2 && s[0] == '\r' && s[1] == '\n')
    ensures Replace(s, CRLF, LF) == [s[0]] + Replace(s[1..], CRLF, LF)
  {
    if |s| >= 2 {
      assert s[..2] != CRLF by { assert s[..2][0] == s[0] && s[..2][1] == s[1]; }
    } else {
      assert s == [s[0]];
      assert Replace(s[1..], CRLF, LF) == [];
    }
  }

  lemma SecondStepAtLf(x: string, target: string)
    ensures Replace(LF + x, LF, target) == target + Replace(x, LF, target)
  {
    assert (LF + x)[..1] == LF;
    assert (LF + x)[1..] == x;
  }

  lemma SecondStepOther(c: char, x: string, target: string)
    requires c != '\n'
    ensures Replace([c] + x, LF, target) == [c] + Replace(x, LF, target)
  {
    assert ([c] + x)[..1] != LF;
    assert ([c] + x)[1..] == x;
  }

  /** The conversion as written equals the single-pass rewrite, for any target. */
  lemma {:induction false} ConvertIsNormalize(s: string, target: string)
    ensures Convert(s, target) == Normalize(s, target)
    decreases |s|
  {
    if s == [] {
    } else if |s| >= 2 && s[0] == '\r' && s[1] == '\n' {
      FirstStepAtCrlf(s);
      SecondStepAtLf(Replace(s[2..], CRLF, LF), target);
      ConvertIsNormalize(s[2..], target);
    } else {
      FirstStepOther(s);
      if s[0] == '\n' {
        assert [s[0]] == LF;
        SecondStepAtLf(Replace(s[1..], CRLF, LF), target);
      } else {
        SecondStepOther(s[0], Replace(s[1..], CRLF, LF), target);
      }
      ConvertIsNormalize(s[1..], target);
    }
  }

  /** With target LF the second `Replace` maps LF to itself: the first step alone decides the result. */
  lemma ConvertToLfIsFirstStep(s: string)
    ensures Convert(s, LF) == Replace(s, CRLF, LF)
  {
    ReplaceBySelf(Replace(s, CRLF, LF), LF);
  }

  /** A text holding no CRLF pair passes the first step unchanged. */
  lemma FirstStepWithoutCrlf(s: string)
    requires NoCrlf(s)
    ensures Replace(s, CRLF, LF) == s
  {
    forall i: nat ensures !OccursAt(s, CRLF, i) {
      if i + 2 <= |s| {
        assert s[i..i + 2][0] == s[i] && s[i..i + 2][1] == s[i + 1];
      }
    }
    ReplaceWithoutOccurrence(s, CRLF, LF);
  }

  // ---------------------------------------------------------------------------
  // Helpers about concatenation

  lemma {:induction false} CountAppend(a: string, b: string, c: char)
    ensures Count(a + b, c) == Count(a, c) + Count(b, c)
    decreases |a|
  {
    if a != [] {
      assert (a + b)[1..] == a[1..] + b;
      CountAppend(a[1..], b, c);
    } else {
      assert a + b == b;
    }
  }

  lemma {:induction false} StripEolAppend(a: string, b: string)
    ensures StripEol(a + b) == StripEol(a) + StripEol(b)
    decreases |a|
  {
    if a != [] {
      assert (a + b)[1..] == a[1..] + b;
      StripEolAppend(a[1..], b);
    } else {
      assert a + b == b;
    }
  }

  /** Unfolds `Normalize` at the head of `s` for a target that is one of the two EOLs. */
  lemma NormalizeHead(s: string, target: string)
    requires s != []
    ensures |s| >= 2 && s[0] == '\r' && s[1] == '\n' ==> Normalize(s, target) == target + Normalize(s[2..], target)
    ensures s[0] == '\n' ==> Normalize(s, target) == target + Normalize(s[1..], target)
    ensures !(|s| >= 2 && s[0] == '\r' && s[1] == '\n') && s[0] != '\n' ==> Normalize(s, target) == [s[0]] + Normalize(s[1..], target)
  {
  }

  // ---------------------------------------------------------------------------
  // What the conversion preserves

  /** Converting to either EOL keeps the number of line feeds. */
  lemma {:induction false} ConvertPreservesLfCount(s: string, target: string)
    requires target == LF || target == CRLF
    ensures Count(Convert(s, target), '\n') == Count(s, '\n')
  {
    ConvertIsNormalize(s, target);
    NormalizePreservesLfCount(s, target);
  }

  lemma {:induction false} NormalizePreservesLfCount(s: string, target: string)
    requires target == LF || target == CRLF
    ensures Count(Normalize(s, target), '\n') == Count(s, '\n')
    decreases |s|
  {
    if s != [] {
      assert Count(target, '\n') == 1;
      if |s| >= 2 && s[0] == '\r' && s[1] == '\n' {
        NormalizePreservesLfCount(s[2..], target);
        CountAppend(target, Normalize(s[2..], target), '\n');
        assert s[1..][1..] == s[2..];
      } else if s[0] == '\n' {
        NormalizePreservesLfCount(s[1..], target);
        CountAppend(target, Normalize(s[1..], target), '\n');
      } else {
        NormalizePreservesLfCount(s[1..], target);
        CountAppend([s[0]], Normalize(s[1..], target), '\n');
      }
    }
  }

  /** Deleting every CR and LF from the input and from the output gives the same text:
      the other characters are unchanged and in the same order. */
  lemma {:induction false} ConvertKeepsNonEolText(s: string, target: string)
    requires target == LF || target == CRLF
    ensures StripEol(Convert(s, target)) == StripEol(s)
  {
    ConvertIsNormalize(s, target);
    NormalizeKeepsNonEolText(s, target);
  }

  lemma {:induction false} NormalizeKeepsNonEolText(s: string, target: string)
    requires target == LF || target == CRLF
    ensures StripEol(Normalize(s, target)) == StripEol(s)
    decreases |s|
  {
    if s != [] {
      assert StripEol(target) == [];
      if |s| >= 2 && s[0] == '\r' && s[1] == '\n' {
        NormalizeKeepsNonEolText(s[2..], target);
        StripEolAppend(target, Normalize(s[2..], target));
        assert s[1..][1..] == s[2..];
      } else if s[0] == '\n' {
        NormalizeKeepsNonEolText(s[1..], target);
        StripEolAppend(target, Normalize(s[1..], target));
      } else {
        NormalizeKeepsNonEolText(s[1..], target);
        StripEolAppend([s[0]], Normalize(s[1..], target));
      }
    }
  }

  // ---------------------------------------------------------------------------
  // The CRLF target

  lemma CrlfPrefixKeepsForm(x: string)
    requires LfPrecededByCr(x)
    ensures LfPrecededByCr(CRLF + x)
  {
    var y := CRLF + x;
    forall i | 0 <= i < |y| && y[i] == '\n' ensures 0 < i && y[i - 1] == '\r' {
      if i >= 2 {
        assert y[i] == x[i - 2];
        if i >= 3 { assert y[i - 1] == x[i - 3]; }
      }
    }
  }

  lemma CharPrefixKeepsForm(c: char, x: string)
    requires c != '\n' && LfPrecededByCr(x)
    requires c != '\r' ==> x == [] || x[0] != '\n'
    ensures LfPrecededByCr([c] + x)
  {
    var y := [c] + x;
    forall i | 0 <= i < |y| && y[i] == '\n' ensures 0 < i && y[i - 1] == '\r' {
      assert y[i] == x[i - 1];
    }
  }

  /** With target CRLF every LF of the output is immediately preceded by a CR. */
  lemma {:induction false} ConvertToCrlfForm(s: string)
    ensures LfPrecededByCr(Convert(s, CRLF))
  {
    ConvertIsNormalize(s, CRLF);
    NormalizeToCrlfForm(s);
  }

  lemma {:induction false} NormalizeToCrlfForm(s: string)
    ensures LfPrecededByCr(Normalize(s, CRLF))
    decreases |s|
  {
    if s != [] {
      NormalizeHead(s, CRLF);
      if |s| >= 2 && s[0] == '\r' && s[1] == '\n' {
        NormalizeToCrlfForm(s[2..]);
        CrlfPrefixKeepsForm(Normalize(s[2..], CRLF));
      } else if s[0] == '\n' {
        NormalizeToCrlfForm(s[1..]);
        CrlfPrefixKeepsForm(Normalize(s[1..], CRLF));
      } else {
        NormalizeToCrlfForm(s[1..]);
        var x := Normalize(s[1..], CRLF);
        assert x != [] ==> x[0] != '\n';
        CharPrefixKeepsForm(s[0], x);
      }
    }
  }

  /** With target CRLF a text comes back unchanged exactly when every LF in it is
      already preceded by a CR. */
  lemma {:induction false} ConvertToCrlfUnchangedIff(s: string)
    ensures Convert(s, CRLF) == s <==> LfPrecededByCr(s)
  {
    ConvertIsNormalize(s, CRLF);
    NormalizeCrlfFixedIff(s);
  }

  lemma {:induction false} NormalizeCrlfFixedIff(s: string)
    ensures Normalize(s, CRLF) == s <==> LfPrecededByCr(s)
    decreases |s|
  {
    if s != [] {
      NormalizeHead(s, CRLF);
      if |s| >= 2 && s[0] == '\r' && s[1] == '\n' {
        NormalizeCrlfFixedIff(s[2..]);
        assert s == CRLF + s[2..];
        LfPrecededByCrTail(s, 2);
        if LfPrecededByCr(s[2..]) { CrlfPrefixKeepsForm(s[2..]); }
      } else if s[0] == '\n' {
        assert !LfPrecededByCr(s);
        assert Normalize(s, CRLF)[0] == '\r';
      } else {
        NormalizeCrlfFixedIff(s[1..]);
        assert s == [s[0]] + s[1..];
        LfPrecededByCrTail(s, 1);
        if LfPrecededByCr(s[1..]) {
          assert s[1..] == [] || s[1..][0] != '\n';
          CharPrefixKeepsForm(s[0], s[1..]);
        }
      }
    }
  }

  /** A text in CRLF form keeps that form in any suffix that does not start with LF. */
  lemma LfPrecededByCrTail(s: string, k: nat)
    requires 0 < k <= |s|
    requires k < |s| && s[k] == '\n' ==> s[k - 1] != '\r'
    ensures LfPrecededByCr(s) ==> LfPrecededByCr(s[k..])
  {
    if LfPrecededByCr(s) {
      var t := s[k..];
      forall i | 0 <= i < |t| && t[i] == '\n' ensures 0 < i && t[i - 1] == '\r' {
        assert t[i] == s[k + i];
        if i == 0 { assert false; } else { assert t[i - 1] == s[k + i - 1]; }
      }
    }
  }

  /** With target CRLF, converting an already converted text changes nothing. */
  lemma ConvertToCrlfIdempotent(s: string)
    ensures Convert(Convert(s, CRLF), CRLF) == Convert(s, CRLF)
  {
    ConvertToCrlfForm(s);
    ConvertToCrlfUnchangedIff(Convert(s, CRLF));
  }

  // ---------------------------------------------------------------------------
  // The LF target

  lemma NoCrlfCons(c: char, x: string)
    ensures NoCrlf([c] + x) <==> NoCrlf(x) && !(c == '\r' && x != [] && x[0] == '\n')
  {
    var y := [c] + x;
    if NoCrlf(x) && !(c == '\r' && x != [] && x[0] == '\n') {
      forall i | 0 <= i < |y| - 1 ensures !(y[i] == '\r' && y[i + 1] == '\n') {
        if i > 0 { assert y[i] == x[i - 1] && y[i + 1] == x[i]; }
      }
    }
    if NoCrlf(y) {
      forall i | 0 <= i < |x| - 1 ensures !(x[i] == '\r' && x[i + 1] == '\n') {
        assert y[i + 1] == x[i] && y[i + 2] == x[i + 1];
      }
      if x != [] { assert y[0] == c && y[1] == x[0]; }
    }
  }

  lemma NoCrCrlfCons(c: char, x: string)
    ensures NoCrCrlf([c] + x) <==> NoCrCrlf(x) && !(c == '\r' && |x| >= 2 && x[0] == '\r' && x[1] == '\n')
  {
    var y := [c] + x;
    if NoCrCrlf(x) && !(c == '\r' && |x| >= 2 && x[0] == '\r' && x[1] == '\n') {
      forall i | 0 <= i < |y| - 2 ensures !(y[i] == '\r' && y[i + 1] == '\r' && y[i + 2] == '\n') {
        if i > 0 { assert y[i] == x[i - 1] && y[i + 1] == x[i] && y[i + 2] == x[i + 1]; }
      }
    }
    if NoCrCrlf(y) {
      forall i | 0 <= i < |x| - 2 ensures !(x[i] == '\r' && x[i + 1] == '\r' && x[i + 2] == '\n') {
        assert y[i + 1] == x[i] && y[i + 2] == x[i + 1] && y[i + 3] == x[i + 2];
      }
      if |x| >= 2 { assert y[0] == c && y[1] == x[0] && y[2] == x[1]; }
    }
  }

  /** With target LF a text comes back unchanged exactly when it holds no CRLF pair. */
  lemma {:induction false} ConvertToLfUnchangedIff(s: string)
    ensures Convert(s, LF) == s <==> NoCrlf(s)
  {
    ConvertIsNormalize(s, LF);
    NormalizeLfFixedIff(s);
  }

  lemma {:induction false} NormalizeLfFixedIff(s: string)
    ensures Normalize(s, LF) == s <==> NoCrlf(s)
    decreases |s|
  {
    if s != [] {
      NormalizeHead(s, LF);
      assert s == [s[0]] + s[1..];
      NoCrlfCons(s[0], s[1..]);
      if |s| >= 2 && s[0] == '\r' && s[1] == '\n' {
        assert Normalize(s, LF)[0] != s[0];
      } else {
        NormalizeLfFixedIff(s[1..]);
        if s[0] == '\n' { assert LF == [s[0]]; }
      }
    }
  }

  /** A text without CR is never changed by the conversion to LF. */
  lemma ConvertToLfWithoutCr(s: string)
    requires forall i :: 0 <= i < |s| ==> s[i] != '\r'
    ensures Convert(s, LF) == s
  {
    ConvertToLfUnchangedIff(s);
  }

  /** A text without LF is never changed, whatever the target: a bare CR is not touched. */
  lemma {:induction false} ConvertWithoutLf(s: string, target: string)
    requires forall i :: 0 <= i < |s| ==> s[i] != '\n'
    ensures Convert(s, target) == s
  {
    ConvertIsNormalize(s, target);
    NormalizeWithoutLf(s, target);
  }

  lemma {:induction false} NormalizeWithoutLf(s: string, target: string)
    requires forall i :: 0 <= i < |s| ==> s[i] != '\n'
    ensures Normalize(s, target) == s
    decreases |s|
  {
    if s != [] {
      assert s[0] != '\n';
      if |s| >= 2 { assert s[1] != '\n'; }
      forall i | 0 <= i < |s[1..]| ensures s[1..][i] != '\n' { assert s[1..][i] == s[i + 1]; }
      NormalizeWithoutLf(s[1..], target);
    }
  }

  /** The LF-form output starts with LF exactly when the input starts with a line ending. */
  lemma NormalizeLfStart(t: string)
    ensures Normalize(t, LF) == [] <==> t == []
    ensures t != [] ==> (Normalize(t, LF)[0] == '\n' <==> t[0] == '\n' || (|t| >= 2 && t[0] == '\r' && t[1] == '\n'))
  {
    if t != [] { NormalizeHead(t, LF); }
  }

  /** The LF-form output holds a CRLF pair exactly when the input holds a CR followed
      by a CRLF pair: that first CR is bare and is kept, the pair becomes LF. */
  lemma {:induction false} NormalizeToLfNoCrlfIff(s: string)
    ensures NoCrlf(Normalize(s, LF)) <==> NoCrCrlf(s)
    decreases |s|
  {
    if s != [] {
      NormalizeHead(s, LF);
      assert s == [s[0]] + s[1..];
      NoCrCrlfCons(s[0], s[1..]);
      if |s| >= 2 && s[0] == '\r' && s[1] == '\n' {
        NormalizeToLfNoCrlfIff(s[2..]);
        NoCrlfCons('\n', Normalize(s[2..], LF));
        assert s[1..] == [s[1]] + s[2..];
        NoCrCrlfCons(s[1], s[2..]);
      } else if s[0] == '\n' {
        NormalizeToLfNoCrlfIff(s[1..]);
        NoCrlfCons('\n', Normalize(s[1..], LF));
      } else {
        NormalizeToLfNoCrlfIff(s[1..]);
        NoCrlfCons(s[0], Normalize(s[1..], LF));
        NormalizeLfStart(s[1..]);
      }
    }
  }

  /** With target LF, converting an already converted text changes nothing exactly when
      the original holds no CR followed by a CRLF pair. */
  lemma ConvertToLfIdempotentIff(s: string)
    ensures Convert(Convert(s, LF), LF) == Convert(s, LF) <==> NoCrCrlf(s)
  {
    ConvertIsNormalize(s, LF);
    NormalizeToLfNoCrlfIff(s);
    ConvertToLfUnchangedIff(Convert(s, LF));
  }

  /** A witness that the LF conversion is not idempotent and does not remove every CRLF:
      "\r\r\n" becomes "\r\n", which a second run turns into "\n". */
  lemma ConvertToLfNotIdempotent()
    ensures Convert("\r\r\n", LF) == "\r\n"
    ensures Convert("\r\n", LF) == "\n"
  {
    ConvertIsNormalize("\r\r\n", LF);
    ConvertIsNormalize("\r\n", LF);
    var s := "\r\r\n";
    NormalizeHead(s, LF);
    NormalizeHead(s[1..], LF);
    assert s[1..][2..] == [];
  }
}
