/** The Python string built-ins the pipeline relies on: str.split with an
    explicit separator, str.strip with no argument, and str.lower on ASCII. */
module Text {

  /** Python's str.isspace() for one character: the ASCII whitespace and
      separator controls, and the Unicode space characters. */
  predicate IsSpace(c: char)
  {
    || c == ' '
    || '\t' <= c <= '\r'
    || '\U{1C}' <= c <= '\U{1F}'
    || c == '\U{85}' || c == '\U{A0}' || c == '\U{1680}'
    || '\U{2000}' <= c <= '\U{200A}'
    || c == '\U{2028}' || c == '\U{2029}' || c == '\U{202F}' || c == '\U{205F}' || c == '\U{3000}'
  }

  predicate AllSpace(s: string)
  {
    forall k :: 0 <= k < |s| ==> IsSpace(s[k])
  }

  // ---------------------------------------------------------------------
  // str.split(sep)

  /** sep occurs in t starting at position i. */
  predicate OccursAt(t: string, sep: string, i: int)
  {
    0 <= i && i + |sep| <= |t| && t[i..i + |sep|] == sep
  }

  ghost predicate Contains(t: string, sep: string)
  {
    exists i :: OccursAt(t, sep, i)
  }

  /** Python's s.split(sep) for a non-empty separator: the pieces between the
      non-overlapping occurrences of sep, found from left to right. */
  function Split(s: string, sep: string): (pieces: seq<string>)
    requires sep != []
    ensures |pieces| >= 1
    decreases |s|
  {
    if |s| < |sep| then [s]
    else if s[..|sep|] == sep then [[]] + Split(s[|sep|..], sep)
    else
      var rest := Split(s[1..], sep);
      [[s[0]] + rest[0]] + rest[1..]
  }

  /** Python's sep.join(pieces). */
  function Join(pieces: seq<string>, sep: string): string
    requires |pieces| >= 1
  {
    if |pieces| == 1 then pieces[0] else pieces[0] + sep + Join(pieces[1..], sep)
  }

  lemma JoinConsHead(x: string, rest: seq<string>, sep: string)
    requires |rest| >= 1
    ensures Join([x + rest[0]] + rest[1..], sep) == x + Join(rest, sep)
  {
    var ps := [x + rest[0]] + rest[1..];
    assert ps[1..] == rest[1..];
  }

  /** Joining the pieces with the separator gives back the string. */
  lemma {:induction false} SplitJoin(s: string, sep: string)
    requires sep != []
    ensures Join(Split(s, sep), sep) == s
    decreases |s|
  {
    if |s| < |sep| {
    } else if s[..|sep|] == sep {
      SplitJoin(s[|sep|..], sep);
      var ps := [[]] + Split(s[|sep|..], sep);
      assert ps[1..] == Split(s[|sep|..], sep);
      assert s == s[..|sep|] + s[|sep|..];
    } else {
      SplitJoin(s[1..], sep);
      var rest := Split(s[1..], sep);
      JoinConsHead([s[0]], rest, sep);
      assert s == [s[0]] + s[1..];
    }
  }

  /** No piece contains the separator: together with SplitJoin this says the
      pieces are exactly the text between the separator's occurrences. */
  lemma {:induction false} SplitPiecesAvoidSeparator(s: string, sep: string)
    requires sep != []
    ensures forall k :: 0 <= k < |Split(s, sep)| ==> !Contains(Split(s, sep)[k], sep)
    decreases |s|
  {
    var ps := Split(s, sep);
    if |s| < |sep| {
      assert |ps| == 1 && ps[0] == s;
      assert forall i :: !OccursAt(s, sep, i);
    } else if s[..|sep|] == sep {
      SplitPiecesAvoidSeparator(s[|sep|..], sep);
      var rest := Split(s[|sep|..], sep);
      assert ps == [[]] + rest;
      forall k | 0 <= k < |ps| ensures !Contains(ps[k], sep) {
        if k == 0 {
          assert forall i :: !OccursAt([], sep, i);
        } else {
          assert ps[k] == rest[k - 1];
        }
      }
    } else {
      SplitPiecesAvoidSeparator(s[1..], sep);
      SplitJoin(s[1..], sep);
      var rest := Split(s[1..], sep);
      var head := [s[0]] + rest[0];
      assert ps == [head] + rest[1..];
      JoinPrefix(rest, sep);
      assert head == s[..|head|];
      assert head[1..] == rest[0];
      HeadAvoidsSeparator(s, head, rest[0], sep);
      forall k | 1 <= k < |ps| ensures !Contains(ps[k], sep) {
        assert ps[k] == rest[k];
      }
    }
  }

  /** A first piece that extends the next piece by one character of s, when s
      does not start with sep, holds no sep either. */
  lemma HeadAvoidsSeparator(s: string, head: string, piece: string, sep: string)
    requires sep != [] && |sep| <= |s| && s[..|sep|] != sep
    requires |head| == 1 + |piece| <= |s| && head == s[..|head|] && head[1..] == piece
    requires !Contains(piece, sep)
    ensures !Contains(head, sep)
  {
    forall i | 0 <= i && i + |sep| <= |head| ensures !OccursAt(head, sep, i) {
      if i == 0 {
        assert head[..|sep|] == s[..|sep|];
      } else {
        assert head[i..i + |sep|] == piece[i - 1..i - 1 + |sep|];
        assert !OccursAt(piece, sep, i - 1);
      }
    }
  }

  /** Every separator occurrence that ends a piece is the leftmost one: no
      occurrence of sep starts inside a piece, even one that would run on into
      the separator after it. With SplitJoin and SplitPiecesAvoidSeparator
      this pins the pieces to the left-to-right split, also for a separator
      that overlaps itself. */
  lemma {:induction false} SplitLeftmost(s: string, sep: string)
    requires sep != []
    ensures forall k :: 0 <= k < |Split(s, sep)| - 1 ==> !Contains(Split(s, sep)[k] + sep[..|sep| - 1], sep)
    decreases |s|
  {
    var ps := Split(s, sep);
    if |s| < |sep| {
    } else if s[..|sep|] == sep {
      SplitLeftmost(s[|sep|..], sep);
      var rest := Split(s[|sep|..], sep);
      assert ps == [[]] + rest;
      forall k | 0 <= k < |ps| - 1 ensures !Contains(ps[k] + sep[..|sep| - 1], sep) {
        if k == 0 {
          assert [] + sep[..|sep| - 1] == sep[..|sep| - 1];
        } else {
          assert ps[k] == rest[k - 1];
        }
      }
    } else {
      SplitLeftmost(s[1..], sep);
      var rest := Split(s[1..], sep);
      assert ps == [[s[0]] + rest[0]] + rest[1..];
      if |rest| > 1 {
        SplitJoin(s[1..], sep);
        LeftmostHead(s, rest, sep);
      }
      forall k | 1 <= k < |ps| - 1 ensures !Contains(ps[k] + sep[..|sep| - 1], sep) {
        assert ps[k] == rest[k];
      }
    }
  }

  /** When s does not start with sep, prefixing the first of the pieces of
      s[1..] with s[0] keeps it free of an occurrence of sep that starts
      inside it. */
  lemma LeftmostHead(s: string, rest: seq<string>, sep: string)
    requires sep != [] && |sep| <= |s| && s[..|sep|] != sep
    requires |rest| > 1 && s[1..] == Join(rest, sep)
    requires !Contains(rest[0] + sep[..|sep| - 1], sep)
    ensures !Contains([s[0]] + rest[0] + sep[..|sep| - 1], sep)
  {
    var j := Join(rest[1..], sep);
    var t := [s[0]] + rest[0];
    var head := t + sep[..|sep| - 1];
    var piece := rest[0] + sep[..|sep| - 1];
    ConsJoin(s, rest, sep);
    PrefixThrough(t, sep, j);
    assert head[1..] == piece;
    HeadAvoidsSeparator(s, head, piece, sep);
  }

  /** s is its first character, the first piece of s[1..], sep, and the
      rest joined. */
  lemma ConsJoin(s: string, rest: seq<string>, sep: string)
    requires s != [] && |rest| > 1 && s[1..] == Join(rest, sep)
    ensures s == [s[0]] + rest[0] + sep + Join(rest[1..], sep)
  {
    assert s[1..] == rest[0] + sep + Join(rest[1..], sep);
    assert s == [s[0]] + s[1..];
  }

  /** Text followed by sep and more, cut one short of the end of sep. */
  lemma PrefixThrough(t: string, sep: string, j: string)
    requires sep != []
    ensures (t + sep + j)[..|t| + |sep| - 1] == t + sep[..|sep| - 1]
  {
  }

  lemma JoinPrefix(ps: seq<string>, sep: string)
    requires |ps| >= 1
    ensures |ps[0]| <= |Join(ps, sep)| && Join(ps, sep)[..|ps[0]|] == ps[0]
  {
  }

  // ---------------------------------------------------------------------
  // str.strip()

  /** s without its leading whitespace. */
  function StripLeading(s: string): string
  {
    if s != [] && IsSpace(s[0]) then StripLeading(s[1..]) else s
  }

  /** s without its trailing whitespace. */
  function StripTrailing(s: string): string
  {
    if s != [] && IsSpace(s[|s| - 1]) then StripTrailing(s[..|s| - 1]) else s
  }

  lemma {:induction false} StripLeadingSuffix(s: string)
    ensures |StripLeading(s)| <= |s| && StripLeading(s) == s[|s| - |StripLeading(s)|..]
    ensures AllSpace(s[..|s| - |StripLeading(s)|])
    ensures StripLeading(s) == [] || !IsSpace(StripLeading(s)[0])
    decreases |s|
  {
    if s != [] && IsSpace(s[0]) {
      StripLeadingSuffix(s[1..]);
      var r := StripLeading(s[1..]);
      assert s[..|s| - |r|] == [s[0]] + s[1..][..|s| - 1 - |r|];
    }
  }

  lemma {:induction false} StripTrailingPrefix(s: string)
    ensures |StripTrailing(s)| <= |s| && StripTrailing(s) == s[..|StripTrailing(s)|]
    ensures AllSpace(s[|StripTrailing(s)|..])
    ensures StripTrailing(s) == [] || !IsSpace(StripTrailing(s)[|StripTrailing(s)| - 1])
    decreases |s|
  {
    if s != [] && IsSpace(s[|s| - 1]) {
      var u := s[..|s| - 1];
      StripTrailingPrefix(u);
      var r := StripTrailing(u);
      assert s[|r|..] == u[|r|..] + [s[|s| - 1]];
    }
  }

  /** r is s with a whitespace prefix and a whitespace suffix taken off, and r
      neither starts nor ends with whitespace. */
  ghost predicate IsStripOf(s: string, r: string)
  {
    && (exists i :: 0 <= i <= |s| - |r| && r == s[i..i + |r|] && AllSpace(s[..i]) && AllSpace(s[i + |r|..]))
    && (r == [] || (!IsSpace(r[0]) && !IsSpace(r[|r| - 1])))
  }

  /** Python's s.strip(). */
  function Strip(s: string): string
  {
    StripTrailing(StripLeading(s))
  }

  /** What strip removes is whitespace on both ends, and the result is empty
      exactly when s is all whitespace. */
  lemma StripRemovesSpace(s: string)
    ensures IsStripOf(s, Strip(s))
    ensures Strip(s) == [] <==> AllSpace(s)
  {
    var t := StripLeading(s);
    var r := StripTrailing(t);
    StripLeadingSuffix(s);
    StripTrailingPrefix(t);
    var i := |s| - |t|;
    assert r == s[i..i + |r|] && AllSpace(s[..i]);
    assert s[i + |r|..] == t[|r|..];
    if r == [] {
      assert s == s[..i] + t[|r|..];
    } else {
      assert r[0] == t[0];
    }
  }

  // ---------------------------------------------------------------------
  // str.lower() on ASCII

  predicate IsAscii(s: string)
  {
    forall k :: 0 <= k < |s| ==> s[k] < '\U{80}'
  }

  function LowerChar(c: char): char
  {
    if 'A' <= c <= 'Z' then (c as int + 32) as char else c
  }

  /** Python's s.lower() for an ASCII string: every capital becomes the
      letter 32 code points above it, every other character stays. */
  function Lower(s: string): (r: string)
    ensures |r| == |s|
    ensures forall k :: 0 <= k < |s| && 'A' <= s[k] <= 'Z' ==> r[k] as int == s[k] as int + 32 && 'a' <= r[k] <= 'z'
    ensures forall k :: 0 <= k < |s| && !('A' <= s[k] <= 'Z') ==> r[k] == s[k]
  {
    seq(|s|, k requires 0 <= k < |s| => LowerChar(s[k]))
  }

  /** Lower-cased text holds no capital, and lower-casing it again changes
      nothing. */
  lemma LowerIdempotent(s: string)
    ensures forall k :: 0 <= k < |Lower(s)| ==> !('A' <= Lower(s)[k] <= 'Z')
    ensures Lower(Lower(s)) == Lower(s)
  {
  }

  /** Text without whitespace at either end is its own strip. */
  lemma StripUnchanged(s: string)
    requires s == [] || (!IsSpace(s[0]) && !IsSpace(s[|s| - 1]))
    ensures Strip(s) == s
  {
  }
}
