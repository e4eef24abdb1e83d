/** The sentence normalizer (normalizestring): lower-case and strip the text,
    put a space before every sentence mark, and turn every run of characters
    other than letters and sentence marks into one space. */
module Normalize {
  import opened Base
  import opened Text

  predicate IsLetter(c: char)
  {
    'a' <= c <= 'z' || 'A' <= c <= 'Z'
  }

  /** The sentence marks of the character class [.!?]. */
  predicate IsPunct(c: char)
  {
    c == '.' || c == '!' || c == '?'
  }

  /** The characters the class [^a-zA-Z.!?] does not match. */
  predicate IsKept(c: char)
  {
    IsLetter(c) || IsPunct(c)
  }

  /** re.sub(r"([.!?])", r" \1", s): a space in front of every sentence
      mark. */
  function SpacePunctuation(s: string): string
    decreases |s|
  {
    if s == [] then []
    else if IsPunct(s[0]) then [' ', s[0]] + SpacePunctuation(s[1..])
    else [s[0]] + SpacePunctuation(s[1..])
  }

  /** s without its leading run of characters the class matches. */
  function SkipRun(s: string): (r: string)
    ensures |r| <= |s|
    decreases |s|
  {
    if s != [] && !IsKept(s[0]) then SkipRun(s[1..]) else s
  }

  /** re.sub(r"[^a-zA-Z.!?]+", r" ", s): every maximal run of characters
      other than letters and sentence marks becomes one space. */
  function CollapseRuns(s: string): string
    decreases |s|
  {
    if s == [] then []
    else if IsKept(s[0]) then [s[0]] + CollapseRuns(s[1..])
    else [' '] + CollapseRuns(SkipRun(s[1..]))
  }

  /** The two substitutions of normalizestring, in order. */
  function Substitute(s: string): string
  {
    CollapseRuns(SpacePunctuation(s))
  }

  /** normalizestring (langproc.py:172-175) with the return the function
      evidently means to have: the text after the two substitutions. The
      unicodetoascii step is the identity on ASCII text, the only input this
      model takes. */
  function NormalizeString(s: string): string
    requires IsAscii(s)
  {
    Substitute(Strip(Lower(s)))
  }

  /** normalizestring as written: the body computes the text but has no
      return statement, so every call yields None. */
  function NormalizeAsWritten(s: string): Option<string>
    requires IsAscii(s)
  {
    None
  }

  // ---------------------------------------------------------------------
  // What each substitution produces

  /** Past the first position, every sentence mark follows a character the
      class matches. */
  predicate MarksAfterGaps(x: string)
  {
    forall i :: 0 < i < |x| && IsPunct(x[i]) ==> !IsKept(x[i - 1])
  }

  /** The first substitution works character by character: it maps a
      concatenation to the concatenation of the results. */
  lemma {:induction false} SpacePunctuationAppend(x: string, y: string)
    ensures SpacePunctuation(x + y) == SpacePunctuation(x) + SpacePunctuation(y)
    decreases |x|
  {
    if x == [] {
      assert x + y == y;
    } else {
      assert (x + y)[1..] == x[1..] + y;
      SpacePunctuationAppend(x[1..], y);
    }
  }

  /** On one character the first substitution puts a single space in front
      of a sentence mark and leaves every other character as it is. */
  lemma SpacePunctuationChar(c: char)
    ensures SpacePunctuation([c]) == if IsPunct(c) then [' ', c] else [c]
  {
    assert [c][1..] == [];
  }

  /** Text without a sentence mark is unchanged by the first substitution. */
  lemma {:induction false} SpacePunctuationFixesUnmarked(s: string)
    requires forall i :: 0 <= i < |s| ==> !IsPunct(s[i])
    ensures SpacePunctuation(s) == s
    decreases |s|
  {
    if s != [] {
      SpacePunctuationFixesUnmarked(s[1..]);
    }
  }

  /** Past the first position, every sentence mark follows a space. */
  predicate MarksAfterSpaces(u: string)
  {
    forall i :: 0 < i < |u| && IsPunct(u[i]) ==> u[i - 1] == ' '
  }

  /** After the first substitution no sentence mark is first or follows a
      kept character, and the text starts as s does unless s starts with a
      mark. */
  lemma {:induction false} SpacePunctuationMarks(s: string)
    ensures SpacePunctuation(s) == [] <==> s == []
    ensures s != [] ==> SpacePunctuation(s)[0] == if IsPunct(s[0]) then ' ' else s[0]
    ensures MarksAfterGaps(SpacePunctuation(s))
    decreases |s|
  {
    if s != [] {
      var rest := SpacePunctuation(s[1..]);
      SpacePunctuationMarks(s[1..]);
      var r := SpacePunctuation(s);
      if IsPunct(s[0]) {
        assert r == [' ', s[0]] + rest;
        forall i | 0 < i < |r| && IsPunct(r[i]) ensures !IsKept(r[i - 1]) {
          if i > 2 {
            assert r[i] == rest[i - 2] && r[i - 1] == rest[i - 3];
          }
        }
      } else {
        assert r == [s[0]] + rest;
        forall i | 0 < i < |r| && IsPunct(r[i]) ensures !IsKept(r[i - 1]) {
          if i > 1 {
            assert r[i] == rest[i - 1] && r[i - 1] == rest[i - 2];
          }
        }
      }
    }
  }

  /** The first substitution adds nothing but spaces. */
  lemma {:induction false} SpacePunctuationChars(s: string)
    ensures forall c :: c in SpacePunctuation(s) ==> c == ' ' || c in s
    decreases |s|
  {
    if s != [] {
      SpacePunctuationChars(s[1..]);
      assert forall c :: c in s[1..] ==> c in s;
    }
  }

  /** Skipping a run drops a prefix, and only characters the class matches. */
  lemma {:induction false} SkipRunSuffix(s: string)
    ensures SkipRun(s) == s[|s| - |SkipRun(s)|..]
    ensures SkipRun(s) == [] || IsKept(SkipRun(s)[0])
    decreases |s|
  {
    if s != [] && !IsKept(s[0]) {
      SkipRunSuffix(s[1..]);
    }
  }

  /** After the second substitution the text holds only kept characters and
      single spaces, is empty only for empty input, and starts with the first
      character of s when that is kept, with a space otherwise. */
  lemma {:induction false} CollapseRunsShape(s: string)
    ensures CollapseRuns(s) == [] <==> s == []
    ensures s != [] ==> CollapseRuns(s)[0] == if IsKept(s[0]) then s[0] else ' '
    ensures forall i :: 0 <= i < |CollapseRuns(s)| ==> IsKept(CollapseRuns(s)[i]) || CollapseRuns(s)[i] == ' '
    ensures forall i :: 0 < i < |CollapseRuns(s)| ==> !(CollapseRuns(s)[i - 1] == ' ' && CollapseRuns(s)[i] == ' ')
    decreases |s|
  {
    if s == [] {
    } else if IsKept(s[0]) {
      CollapseRunsShape(s[1..]);
      ConsShape(s[0], CollapseRuns(s[1..]));
    } else {
      var next := SkipRun(s[1..]);
      SkipRunSuffix(s[1..]);
      CollapseRunsShape(next);
      ConsShape(' ', CollapseRuns(next));
    }
  }

  /** One kept character or one space in front of collapsed text whose first
      character is kept. */
  lemma ConsShape(head: char, rest: string)
    requires IsKept(head) || head == ' '
    requires forall i :: 0 <= i < |rest| ==> IsKept(rest[i]) || rest[i] == ' '
    requires forall i :: 0 < i < |rest| ==> !(rest[i - 1] == ' ' && rest[i] == ' ')
    requires head == ' ' && rest != [] ==> rest[0] != ' '
    ensures forall i :: 0 <= i < |[head] + rest| ==> IsKept(([head] + rest)[i]) || ([head] + rest)[i] == ' '
    ensures forall i :: 0 < i < |[head] + rest| ==> !(([head] + rest)[i - 1] == ' ' && ([head] + rest)[i] == ' ')
  {
    var r := [head] + rest;
    forall i | 0 < i < |r| ensures !(r[i - 1] == ' ' && r[i] == ' ') {
      if i > 1 {
        assert r[i] == rest[i - 1] && r[i - 1] == rest[i - 2];
      }
    }
  }

  /** The second substitution keeps characters of s and adds only spaces. */
  lemma {:induction false} CollapseRunsChars(s: string)
    ensures forall c :: c in CollapseRuns(s) ==> c == ' ' || c in s
    decreases |s|
  {
    if s != [] {
      if IsKept(s[0]) {
        CollapseRunsChars(s[1..]);
        assert forall c :: c in s[1..] ==> c in s;
      } else {
        var rest := SkipRun(s[1..]);
        CollapseRunsChars(rest);
        SkipRunSuffix(s[1..]);
        assert forall c :: c in rest ==> c in s[1..];
        assert forall c :: c in s[1..] ==> c in s;
      }
    }
  }

  // ---------------------------------------------------------------------
  // The shape of normalized text

  /** Normalized text: only letters, sentence marks and spaces, never two
      spaces in a row, and a space right before every sentence mark. */
  predicate Shape(u: string)
  {
    && (forall i :: 0 <= i < |u| ==> IsKept(u[i]) || u[i] == ' ')
    && (forall i :: 0 < i < |u| ==> !(u[i - 1] == ' ' && u[i] == ' '))
    && (forall i :: 0 <= i < |u| && IsPunct(u[i]) ==> i > 0 && u[i - 1] == ' ')
  }

  /** Collapsing turns a gap before a sentence mark into the space before
      it. */
  lemma {:induction false} CollapseKeepsMarkSpacing(x: string)
    requires MarksAfterGaps(x)
    ensures MarksAfterSpaces(CollapseRuns(x))
    decreases |x|
  {
    if x == [] {
    } else if IsKept(x[0]) {
      var tail := x[1..];
      assert MarksAfterGaps(tail) by {
        forall i | 0 < i < |tail| && IsPunct(tail[i]) ensures !IsKept(tail[i - 1]) {
          assert tail[i] == x[i + 1] && tail[i - 1] == x[i];
        }
      }
      CollapseKeepsMarkSpacing(tail);
      CollapseRunsShape(tail);
      var c := CollapseRuns(tail);
      var r := CollapseRuns(x);
      assert r == [x[0]] + c;
      forall i | 0 < i < |r| && IsPunct(r[i]) ensures r[i - 1] == ' ' {
        if i > 1 {
          assert r[i] == c[i - 1] && r[i - 1] == c[i - 2];
        }
      }
    } else {
      var rest := SkipRun(x[1..]);
      SkipRunSuffix(x[1..]);
      var m := |x| - |rest|;
      assert rest == x[m..];
      assert MarksAfterGaps(rest) by {
        forall i | 0 < i < |rest| && IsPunct(rest[i]) ensures !IsKept(rest[i - 1]) {
          assert rest[i] == x[m + i] && rest[i - 1] == x[m + i - 1];
        }
      }
      CollapseKeepsMarkSpacing(rest);
      var c := CollapseRuns(rest);
      var r := CollapseRuns(x);
      assert r == [' '] + c;
      forall i | 0 < i < |r| && IsPunct(r[i]) ensures r[i - 1] == ' ' {
        if i > 1 {
          assert r[i] == c[i - 1] && r[i - 1] == c[i - 2];
        }
      }
    }
  }

  /** Whatever text the substitutions get, their result has the shape of
      normalized text. */
  lemma SubstituteShape(s: string)
    ensures Shape(Substitute(s))
  {
    var x := SpacePunctuation(s);
    SpacePunctuationMarks(s);
    CollapseKeepsMarkSpacing(x);
    CollapseRunsShape(x);
  }

  /** The substitutions keep every letter and sentence mark in order and add
      nothing but spaces: the text's kept characters. */
  function KeptChars(s: string): (k: string)
    ensures forall i :: 0 <= i < |k| ==> IsKept(k[i])
    decreases |s|
  {
    if s == [] then [] else (if IsKept(s[0]) then [s[0]] else []) + KeptChars(s[1..])
  }

  lemma {:induction false} SpacePunctuationKeeps(s: string)
    ensures KeptChars(SpacePunctuation(s)) == KeptChars(s)
    decreases |s|
  {
    if s != [] {
      SpacePunctuationKeeps(s[1..]);
      var r := SpacePunctuation(s[1..]);
      if IsPunct(s[0]) {
        var t := [' ', s[0]] + r;
        assert t[1..] == [s[0]] + r && t[1..][1..] == r;
      } else {
        assert ([s[0]] + r)[1..] == r;
      }
    }
  }

  /** A skipped run holds no kept character. */
  lemma {:induction false} SkipRunKeeps(s: string)
    ensures KeptChars(SkipRun(s)) == KeptChars(s)
    decreases |s|
  {
    if s != [] && !IsKept(s[0]) {
      SkipRunKeeps(s[1..]);
    }
  }

  lemma {:induction false} CollapseRunsKeeps(s: string)
    ensures KeptChars(CollapseRuns(s)) == KeptChars(s)
    decreases |s|
  {
    if s != [] {
      if IsKept(s[0]) {
        CollapseRunsKeeps(s[1..]);
        assert ([s[0]] + CollapseRuns(s[1..]))[1..] == CollapseRuns(s[1..]);
      } else {
        var rest := SkipRun(s[1..]);
        CollapseRunsKeeps(rest);
        SkipRunKeeps(s[1..]);
        assert ([' '] + CollapseRuns(rest))[1..] == CollapseRuns(rest);
      }
    }
  }

  /** The substitutions neither lose, reorder nor invent a letter or a
      sentence mark. */
  lemma SubstituteKeeps(s: string)
    ensures KeptChars(Substitute(s)) == KeptChars(s)
  {
    SpacePunctuationKeeps(s);
    CollapseRunsKeeps(SpacePunctuation(s));
  }

  lemma SubstituteLetter(c: char, after: string)
    requires IsLetter(c)
    ensures Substitute([c] + after) == [c] + Substitute(after)
  {
    var u := [c] + after;
    assert u[1..] == after;
    var x := SpacePunctuation(u);
    assert x == [c] + SpacePunctuation(after);
    assert x[1..] == SpacePunctuation(after);
  }

  lemma SubstituteSpaced(c: char, after: string)
    requires IsKept(c)
    ensures Substitute([' ', c] + after) == [' ', c] + Substitute(after)
  {
    var u := [' ', c] + after;
    var v := [c] + after;
    assert u[1..] == v && v[1..] == after;
    var tail := SpacePunctuation(after);
    var x := SpacePunctuation(v);
    var y := [c] + tail;
    assert y[1..] == tail;
    assert SpacePunctuation(u) == [' '] + x;
    assert ([' '] + x)[1..] == x;
    assert SkipRun(x) == y by {
      if IsPunct(c) {
        assert x == [' '] + y;
        assert x[1..] == y;
      } else {
        assert x == y;
      }
    }
    assert CollapseRuns(y) == [c] + CollapseRuns(tail);
  }

  /** Text that already has the normalized shape comes through the
      substitutions unchanged. */
  lemma {:induction false} SubstituteFixesShape(u: string)
    requires Shape(u)
    ensures Substitute(u) == u
    decreases |u|
  {
    if u == [] {
    } else if u == [' '] {
      assert SpacePunctuation(u) == [' '];
      assert CollapseRuns([' ']) == [' '] + CollapseRuns(SkipRun([]));
    } else if u[0] == ' ' {
      var after := u[2..];
      assert u == [' ', u[1]] + after;
      ShapeTail(u, 2);
      SubstituteFixesShape(after);
      SubstituteSpaced(u[1], after);
    } else {
      var after := u[1..];
      assert u == [u[0]] + after;
      ShapeTail(u, 1);
      SubstituteFixesShape(after);
      SubstituteLetter(u[0], after);
    }
  }

  /** A suffix of normalized text that does not start with a sentence mark is
      normalized text. */
  lemma ShapeTail(u: string, k: nat)
    requires Shape(u) && k <= |u|
    requires k < |u| ==> !IsPunct(u[k])
    ensures Shape(u[k..])
  {
    var t := u[k..];
    forall i | 0 <= i < |t| && IsPunct(t[i]) ensures i > 0 && t[i - 1] == ' ' {
      assert t[i] == u[k + i];
      if i > 0 {
        assert t[i - 1] == u[k + i - 1];
      }
    }
    forall i | 0 < i < |t| ensures !(t[i - 1] == ' ' && t[i] == ' ') {
      assert t[i - 1] == u[k + i - 1] && t[i] == u[k + i];
    }
  }

  /** Applying the substitutions twice is applying them once. */
  lemma SubstituteIdempotent(s: string)
    ensures Substitute(Substitute(s)) == Substitute(s)
  {
    SubstituteShape(s);
    SubstituteFixesShape(Substitute(s));
  }

  /** Normalized text has the normalized shape, holds no capital letter, and
      keeps the letters and sentence marks of the lower-cased, stripped
      input. */
  lemma NormalizeStringShape(s: string)
    requires IsAscii(s)
    ensures Shape(NormalizeString(s))
    ensures forall i :: 0 <= i < |NormalizeString(s)| ==> !('A' <= NormalizeString(s)[i] <= 'Z')
    ensures KeptChars(NormalizeString(s)) == KeptChars(Strip(Lower(s)))
  {
    var t := Strip(Lower(s));
    SubstituteShape(t);
    SubstituteKeeps(t);
    StripRemovesSpace(Lower(s));
    LowerIdempotent(s);
    var u := NormalizeString(s);
    SpacePunctuationChars(t);
    CollapseRunsChars(SpacePunctuation(t));
    forall i | 0 <= i < |u| ensures !('A' <= u[i] <= 'Z') {
      assert u[i] in u;
      if u[i] != ' ' {
        assert u[i] in SpacePunctuation(t);
        assert u[i] in t;
        var j :| 0 <= j < |t| && t[j] == u[i];
        LowerInStrip(Lower(s), j);
      }
    }
  }

  /** Every character of the stripped lower-cased text is not a capital. */
  lemma LowerInStrip(l: string, j: nat)
    requires forall k :: 0 <= k < |l| ==> !('A' <= l[k] <= 'Z')
    requires j < |Strip(l)|
    ensures !('A' <= Strip(l)[j] <= 'Z')
  {
    StripRemovesSpace(l);
    var i :| 0 <= i <= |l| - |Strip(l)| && Strip(l) == l[i..i + |Strip(l)|] && AllSpace(l[..i]) && AllSpace(l[i + |Strip(l)|..]);
    assert Strip(l)[j] == l[i + j];
  }

  // ---------------------------------------------------------------------
  // How the second substitution treats runs

  /** Every character of x is one the class [^a-zA-Z.!?] matches. */
  predicate AllGap(x: string)
  {
    forall i :: 0 <= i < |x| ==> !IsKept(x[i])
  }

  /** Every character of x is a letter or a sentence mark. */
  predicate AllKept(x: string)
  {
    forall i :: 0 <= i < |x| ==> IsKept(x[i])
  }

  /** A run of matched characters is skipped up to the kept character that
      ends it. */
  lemma {:induction false} SkipWholeRun(x: string, v: string)
    requires AllGap(x)
    requires v == [] || IsKept(v[0])
    ensures SkipRun(x + v) == v
    decreases |x|
  {
    if x == [] {
      assert x + v == v;
    } else {
      assert (x + v)[1..] == x[1..] + v;
      SkipWholeRun(x[1..], v);
    }
  }

  /** Skipping the leading run of text that ends in a kept character stops
      inside that text. */
  lemma {:induction false} SkipRunAppend(x: string, w: string)
    requires x != [] && IsKept(x[|x| - 1])
    ensures SkipRun(x + w) == SkipRun(x) + w
    ensures SkipRun(x) != [] && SkipRun(x)[|SkipRun(x)| - 1] == x[|x| - 1]
    decreases |x|
  {
    if !IsKept(x[0]) {
      assert (x + w)[1..] == x[1..] + w;
      SkipRunAppend(x[1..], w);
    }
  }

  /** The second substitution works piecewise across a boundary right after
      a kept character: no run spans it. */
  lemma {:induction false} CollapseRunsAppend(u: string, w: string)
    requires u == [] || IsKept(u[|u| - 1])
    ensures CollapseRuns(u + w) == CollapseRuns(u) + CollapseRuns(w)
    decreases |u|
  {
    if u == [] {
      assert u + w == w;
    } else if IsKept(u[0]) {
      assert (u + w)[1..] == u[1..] + w;
      CollapseRunsAppend(u[1..], w);
    } else {
      var x := u[1..];
      assert (u + w)[1..] == x + w;
      SkipRunAppend(x, w);
      CollapseRunsAppend(SkipRun(x), w);
    }
  }

  /** A non-empty run of matched characters in front of a kept character
      (or the end) becomes exactly one space. */
  lemma CollapseRunsRun(r: string, v: string)
    requires r != [] && AllGap(r)
    requires v == [] || IsKept(v[0])
    ensures CollapseRuns(r + v) == " " + CollapseRuns(v)
  {
    assert (r + v)[1..] == r[1..] + v;
    SkipWholeRun(r[1..], v);
  }

  /** A maximal run between kept text u and v is replaced by one space, and
      the text around it is collapsed on its own. */
  lemma CollapseRunsGap(u: string, r: string, v: string)
    requires u == [] || IsKept(u[|u| - 1])
    requires r != [] && AllGap(r)
    requires v == [] || IsKept(v[0])
    ensures CollapseRuns(u + r + v) == CollapseRuns(u) + " " + CollapseRuns(v)
  {
    var w := r + v;
    assert u + r + v == u + w;
    CollapseRunsAppend(u, w);
    CollapseRunsRun(r, v);
    ConcatAssoc(CollapseRuns(u), " ", CollapseRuns(v));
  }

  lemma ConcatAssoc(a: string, b: string, c: string)
    ensures a + (b + c) == a + b + c
  {
  }

  /** A non-empty run of characters other than letters and sentence marks,
      between text that is empty or ends in a letter or mark and text that is
      empty or starts with a letter, becomes exactly one space under both
      substitutions, and the text around it is substituted on its own. */
  lemma SubstituteGap(u: string, r: string, v: string)
    requires u == [] || IsKept(u[|u| - 1])
    requires r != [] && AllGap(r)
    requires v == [] || IsLetter(v[0])
    ensures Substitute(u + r + v) == Substitute(u) + " " + Substitute(v)
  {
    var pu, pv := SpacePunctuation(u), SpacePunctuation(v);
    SpacePunctuationAppend(u + r, v);
    SpacePunctuationAppend(u, r);
    SpacePunctuationFixesUnmarked(r);
    SpacePunctuationEnd(u);
    SpacePunctuationMarks(v);
    CollapseRunsGap(pu, r, pv);
  }

  /** The first substitution keeps a final letter or sentence mark last. */
  lemma SpacePunctuationEnd(u: string)
    requires u == [] || IsKept(u[|u| - 1])
    ensures var p := SpacePunctuation(u); p == [] || IsKept(p[|p| - 1])
  {
    if u != [] {
      var n := |u| - 1;
      assert u == u[..n] + [u[n]];
      SpacePunctuationAppend(u[..n], [u[n]]);
      SpacePunctuationChar(u[n]);
    }
  }

  /** The digit between two letters becomes a space; it is not dropped. */
  lemma SubstituteDigitGap()
    ensures Substitute("a1b") == "a b"
  {
    assert "a1b" == "a" + "1" + "b";
    SubstituteGap("a", "1", "b");
    SubstituteLetter('a', "");
    SubstituteLetter('b', "");
    assert Substitute("") == "";
  }

  /** Text of letters and sentence marks only has no run to collapse. */
  lemma {:induction false} CollapseRunsFixesKept(s: string)
    requires AllKept(s)
    ensures CollapseRuns(s) == s
    decreases |s|
  {
    if s != [] {
      CollapseRunsFixesKept(s[1..]);
    }
  }

  /** ASCII text already in normalized form, lower-case and without a
      leading or trailing space, is its own normalization. */
  lemma NormalizeFixesNormalized(u: string)
    requires IsAscii(u) && Shape(u)
    requires forall i :: 0 <= i < |u| ==> !('A' <= u[i] <= 'Z')
    requires u == [] || (u[0] != ' ' && u[|u| - 1] != ' ')
    ensures NormalizeString(u) == u
  {
    assert Lower(u) == u;
    StripUnchanged(u);
    SubstituteFixesShape(u);
  }

  /** A digit between two letters becomes a space in the normalized text. */
  lemma NormalizeDigitGap()
    ensures NormalizeString("A1b") == "a b"
  {
    assert Lower("A1b") == "a1b";
    StripUnchanged("a1b");
    SubstituteDigitGap();
  }

  /** The whole normalizer is not idempotent: stripping runs before the
      substitutions, so a trailing non-letter becomes a trailing space that
      only a second pass removes. */
  lemma NormalizeNotIdempotent()
    ensures NormalizeString("a1") == "a "
    ensures NormalizeString("a ") == "a"
  {
    assert Lower("a1") == "a1";
    assert Lower("a ") == "a ";
    assert Strip("a1") == "a1";
    assert Strip("a ") == "a";
  }

  /** As written the normalizer returns None where the intended result is
      the normalized text. */
  lemma NormalizeDropsResult()
    ensures NormalizeAsWritten("A!") == None
    ensures NormalizeString("A!") == "a !"
  {
    assert Lower("A!") == "a!";
    assert Strip("a!") == "a!";
    assert SpacePunctuation("a!") == "a !";
    assert CollapseRuns("!") == "!";
    assert CollapseRuns(" !") == " !" by {
      assert SkipRun("!") == "!";
    }
  }
}
