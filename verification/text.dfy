/** String helpers standing for the handful of Ruby `String` methods the
    collectors rely on: `strip`, `split(/\s+/)`, `split(c)`, `chomp(c)`,
    `to_i` and `"%02d"` / `to_s` formatting of integers.

    Strings are sequences of characters; Ruby's `\s` class is the six ASCII
    white-space characters below. */
module Text {

  /** Ruby's `\s`: space, tab, line feed, vertical tab, form feed, carriage return. */
  predicate IsSpace(c: char) {
    c == ' ' || c == '\t' || c == '\n' || c == '\U{0B}' || c == '\U{0C}' || c == '\r'
  }

  /** A token as `split(/\s+/)` yields it: non-empty and free of white space. */
  predicate IsWord(w: string) {
    |w| > 0 && forall i :: 0 <= i < |w| ==> !IsSpace(w[i])
  }

  /** Length of the leading run of non-space characters of `s`. */
  function WordLen(s: string): (n: nat)
    ensures n <= |s|
    ensures forall i :: 0 <= i < n ==> !IsSpace(s[i])
    ensures n < |s| ==> IsSpace(s[n])
  {
    if |s| == 0 || IsSpace(s[0]) then 0 else 1 + WordLen(s[1..])
  }

  /** `s.strip.split(/\s+/)`: the maximal runs of non-space characters, in order. */
  function Tokens(s: string): (r: seq<string>)
    ensures forall i :: 0 <= i < |r| ==> IsWord(r[i])
    decreases |s|
  {
    if |s| == 0 then []
    else if IsSpace(s[0]) then Tokens(s[1..])
    else
      var n := WordLen(s);
      [s[..n]] + Tokens(s[n..])
  }

  /** Words joined by single spaces: the inverse of `Tokens` on well-formed words. */
  function Unwords(ws: seq<string>): string {
    if |ws| == 0 then ""
    else if |ws| == 1 then ws[0]
    else ws[0] + " " + Unwords(ws[1..])
  }

  lemma {:induction false} WordLenOfWord(w: string, rest: string)
    requires IsWord(w)
    requires |rest| == 0 || IsSpace(rest[0])
    ensures WordLen(w + rest) == |w|
    decreases |w|
  {
    if |w| > 1 {
      assert (w + rest)[1..] == w[1..] + rest;
      WordLenOfWord(w[1..], rest);
    } else {
      assert (w + rest)[1..] == rest;
    }
  }

  lemma TokensOfWordThen(w: string, rest: string)
    requires IsWord(w)
    requires |rest| == 0 || IsSpace(rest[0])
    ensures Tokens(w + rest) == [w] + Tokens(rest)
  {
    WordLenOfWord(w, rest);
    var s := w + rest;
    assert s[..|w|] == w;
    assert s[|w|..] == rest;
  }

  /** Tokenising words joined by single spaces gives back the words. */
  lemma {:induction false} TokensUnwords(ws: seq<string>)
    requires forall i :: 0 <= i < |ws| ==> IsWord(ws[i])
    ensures Tokens(Unwords(ws)) == ws
  {
    if |ws| == 0 {
    } else if |ws| == 1 {
      TokensOfWordThen(ws[0], "");
      assert ws[0] + "" == ws[0];
    } else {
      var tail := Unwords(ws[1..]);
      assert Unwords(ws) == ws[0] + (" " + tail);
      TokensOfWordThen(ws[0], " " + tail);
      assert Tokens(" " + tail) == Tokens(tail) by {
        assert (" " + tail)[1..] == tail;
      }
      TokensUnwords(ws[1..]);
      assert ws == [ws[0]] + ws[1..];
    }
  }

  /** Number of leading white-space characters. */
  function LeadSpaces(s: string): (n: nat)
    ensures n <= |s|
    ensures forall i :: 0 <= i < n ==> IsSpace(s[i])
    ensures n < |s| ==> !IsSpace(s[n])
  {
    if |s| == 0 || !IsSpace(s[0]) then 0 else 1 + LeadSpaces(s[1..])
  }

  /** Number of trailing white-space characters. */
  function TrailSpaces(s: string): (n: nat)
    ensures n <= |s|
    ensures forall i :: |s| - n <= i < |s| ==> IsSpace(s[i])
    ensures n < |s| ==> !IsSpace(s[|s| - n - 1])
  {
    if |s| == 0 || !IsSpace(s[|s| - 1]) then 0 else 1 + TrailSpaces(s[..|s| - 1])
  }

  /** `s.strip`: `s` without its leading and trailing white space. */
  function Strip(s: string): (r: string)
    ensures |r| == 0 || (!IsSpace(r[0]) && !IsSpace(r[|r| - 1]))
    ensures |r| <= |s|
    ensures forall k :: 0 <= k < |s| && !IsSpace(s[k]) ==> |r| > 0
  {
    var a := LeadSpaces(s);
    if a == |s| then
      ""
    else
      var b := TrailSpaces(s);
      assert b < |s| - a by {
        assert !IsSpace(s[a]);
      }
      s[a..|s| - b]
  }

  /** Stripping pads away: padding of white space around a stripped string. */
  lemma {:induction false} StripPadded(pre: string, body: string, post: string)
    requires forall i :: 0 <= i < |pre| ==> IsSpace(pre[i])
    requires forall i :: 0 <= i < |post| ==> IsSpace(post[i])
    requires |body| > 0 && !IsSpace(body[0]) && !IsSpace(body[|body| - 1])
    ensures Strip(pre + body + post) == body
  {
    var s := pre + body + post;
    LeadSpacesOf(pre, body + post);
    assert s == pre + (body + post);
    assert LeadSpaces(s) == |pre|;
    TrailSpacesOf(pre + body, post);
    assert TrailSpaces(s) == |post|;
    assert s[|pre|..|s| - |post|] == body;
  }

  lemma {:induction false} LeadSpacesOf(pre: string, rest: string)
    requires forall i :: 0 <= i < |pre| ==> IsSpace(pre[i])
    requires |rest| > 0 && !IsSpace(rest[0])
    ensures LeadSpaces(pre + rest) == |pre|
    decreases |pre|
  {
    if |pre| > 0 {
      assert (pre + rest)[1..] == pre[1..] + rest;
      LeadSpacesOf(pre[1..], rest);
    } else {
      assert pre + rest == rest;
    }
  }

  lemma {:induction false} TrailSpacesOf(front: string, post: string)
    requires forall i :: 0 <= i < |post| ==> IsSpace(post[i])
    requires |front| > 0 && !IsSpace(front[|front| - 1])
    ensures TrailSpaces(front + post) == |post|
    decreases |post|
  {
    if |post| > 0 {
      var s := front + post;
      assert s[..|s| - 1] == front + post[..|post| - 1];
      TrailSpacesOf(front, post[..|post| - 1]);
    } else {
      assert front + post == front;
    }
  }

  /** Every piece of `s` between occurrences of `c`, empty pieces included. */
  function SplitOn(s: string, c: char): (r: seq<string>)
    ensures |r| >= 1
    ensures forall i :: 0 <= i < |r| ==> c !in r[i]
    decreases |s|
  {
    if |s| == 0 then [""]
    else if s[0] == c then [""] + SplitOn(s[1..], c)
    else
      var rest := SplitOn(s[1..], c);
      [[s[0]] + rest[0]] + rest[1..]
  }

  /** `pieces.join(c)`. */
  function Join(pieces: seq<string>, c: char): string
    requires |pieces| >= 1
  {
    if |pieces| == 1 then pieces[0] else pieces[0] + [c] + Join(pieces[1..], c)
  }

  /** Joining the pieces of a split gives the string back. */
  lemma {:induction false} JoinSplitOn(s: string, c: char)
    ensures Join(SplitOn(s, c), c) == s
    decreases |s|
  {
    if |s| == 0 {
    } else {
      JoinSplitOn(s[1..], c);
      var rest := SplitOn(s[1..], c);
      if s[0] == c {
        assert SplitOn(s, c)[1..] == rest;
        assert s == [c] + s[1..];
      } else {
        var r := SplitOn(s, c);
        if |rest| == 1 {
          assert r == [[s[0]] + rest[0]];
          assert s == [s[0]] + s[1..];
        } else {
          assert r[1..] == rest[1..];
          assert Join(rest, c) == rest[0] + [c] + Join(rest[1..], c);
          assert s == [s[0]] + s[1..];
        }
      }
    }
  }

  /** Splitting joined pieces that do not contain the separator gives the pieces back. */
  lemma {:induction false} SplitOnJoin(pieces: seq<string>, c: char)
    requires |pieces| >= 1
    requires forall i :: 0 <= i < |pieces| ==> c !in pieces[i]
    ensures SplitOn(Join(pieces, c), c) == pieces
    decreases |pieces|, |pieces[0]|
  {
    var p := pieces[0];
    if |p| == 0 {
      if |pieces| == 1 {
      } else {
        var s := Join(pieces, c);
        assert s == [c] + Join(pieces[1..], c);
        assert s[1..] == Join(pieces[1..], c);
        SplitOnJoin(pieces[1..], c);
        assert pieces == [""] + pieces[1..];
      }
    } else {
      var shorter := [p[1..]] + pieces[1..];
      assert forall i :: 0 <= i < |shorter| ==> c !in shorter[i] by {
        forall i | 0 <= i < |shorter| ensures c !in shorter[i] {
          if i == 0 {
            assert forall k :: 0 <= k < |p[1..]| ==> p[1..][k] == p[k + 1];
          } else {
            assert shorter[i] == pieces[i];
          }
        }
      }
      SplitOnJoin(shorter, c);
      var s := Join(pieces, c);
      assert s == [p[0]] + Join(shorter, c) by {
        assert shorter[1..] == pieces[1..];
        assert p == [p[0]] + p[1..];
      }
      assert s[1..] == Join(shorter, c);
      assert s[0] == p[0] && p[0] != c;
      assert shorter[0] == p[1..] && shorter[1..] == pieces[1..];
      assert [p[0]] + shorter[0] == p;
      assert pieces == [p] + pieces[1..];
      assert pieces == [[p[0]] + shorter[0]] + shorter[1..];
    }
  }

  /** Splitting at a separator splits the two sides independently. */
  lemma {:induction false} SplitOnAppend(a: string, b: string, c: char)
    ensures SplitOn(a + [c] + b, c) == SplitOn(a, c) + SplitOn(b, c)
    decreases |a|
  {
    var s := a + [c] + b;
    if |a| == 0 {
      assert s == [c] + b;
      assert s[1..] == b;
    } else {
      assert s[1..] == a[1..] + [c] + b;
      SplitOnAppend(a[1..], b, c);
      SplitOnSameHead(a, s, SplitOn(b, c), c);
    }
  }

  /** Two strings with the same first character whose tails split into
      pieces differing by `more` at the end split that way themselves. */
  lemma SplitOnSameHead(a: string, s: string, more: seq<string>, c: char)
    requires |a| > 0 && |s| > 0 && s[0] == a[0]
    requires SplitOn(s[1..], c) == SplitOn(a[1..], c) + more
    ensures SplitOn(s, c) == SplitOn(a, c) + more
  {
    var left := SplitOn(a[1..], c);
    var rest := SplitOn(s[1..], c);
    if a[0] == c {
      assert [""] + (left + more) == ([""] + left) + more;
    } else {
      ConsPieces([a[0]], left, rest, more);
    }
  }

  /** Glueing a prefix onto the first piece commutes with appending pieces. */
  lemma ConsPieces(x: string, left: seq<string>, rest: seq<string>, more: seq<string>)
    requires |left| >= 1 && rest == left + more
    ensures [x + rest[0]] + rest[1..] == ([x + left[0]] + left[1..]) + more
  {
    assert rest[0] == left[0];
    assert rest[1..] == left[1..] + more;
  }

  /** A string without the separator is a single piece. */
  lemma {:induction false} SplitOnNoSep(s: string, c: char)
    requires c !in s
    ensures SplitOn(s, c) == [s]
    decreases |s|
  {
    if |s| > 0 {
      assert c !in s[1..] by {
        forall i | 0 <= i < |s[1..]| ensures s[1..][i] != c {
          assert s[1..][i] == s[i + 1];
        }
      }
      SplitOnNoSep(s[1..], c);
      assert [s[0]] + s[1..] == s;
    }
  }

  /** A string that does not end in the separator has a non-empty last piece. */
  lemma {:induction false} SplitOnLastPiece(s: string, c: char)
    requires |s| > 0 && s[|s| - 1] != c
    ensures |SplitOn(s, c)[|SplitOn(s, c)| - 1]| > 0
    decreases |s|
  {
    if |s| == 1 {
    } else {
      assert s[1..][|s[1..]| - 1] == s[|s| - 1];
      SplitOnLastPiece(s[1..], c);
    }
  }

  /** Ruby's `split` keeps every piece when the string does not end in the separator. */
  lemma RubySplitKeepsAll(s: string, c: char)
    requires |s| > 0 && s[|s| - 1] != c
    ensures RubySplit(s, c) == SplitOn(s, c)
  {
    SplitOnLastPiece(s, c);
  }

  /** The join of the first pieces, then the separator, then the join of the rest. */
  lemma {:induction false} JoinPrefix(pieces: seq<string>, i: nat, c: char)
    requires i + 1 < |pieces|
    ensures Join(pieces, c) == Join(pieces[..i + 1], c) + [c] + Join(pieces[i + 1..], c)
    decreases i
  {
    if i > 0 {
      JoinPrefix(pieces[1..], i - 1, c);
      assert pieces[1..][..i] == pieces[1..i + 1];
      assert pieces[1..][i..] == pieces[i + 1..];
      assert pieces[..i + 1][1..] == pieces[1..i + 1];
    } else {
      assert pieces[..1] == [pieces[0]];
    }
  }

  /** Ruby drops trailing empty pieces from the result of `split`. */
  function DropTrailingEmpty(pieces: seq<string>): (r: seq<string>)
    ensures |r| <= |pieces| && r == pieces[..|r|]
    ensures |r| == 0 || |r[|r| - 1]| > 0
    ensures forall i :: |r| <= i < |pieces| ==> pieces[i] == ""
  {
    if |pieces| == 0 then []
    else if pieces[|pieces| - 1] == "" then DropTrailingEmpty(pieces[..|pieces| - 1])
    else pieces
  }

  /** `s.split(c)` for a one-character string `c`. */
  function RubySplit(s: string, c: char): seq<string> {
    DropTrailingEmpty(SplitOn(s, c))
  }

  /** `s.chomp(c)` for a one-character string `c`: one trailing `c` is removed. */
  function Chomp(s: string, c: char): (r: string)
    ensures |s| > 0 && s[|s| - 1] == c ==> r + [c] == s
    ensures !(|s| > 0 && s[|s| - 1] == c) ==> r == s
  {
    if |s| > 0 && s[|s| - 1] == c then s[..|s| - 1] else s
  }

  // ---------------------------------------------------------------------------
  // Decimal digits

  predicate IsDigit(c: char) { '0' <= c <= '9' }

  predicate AllDigits(s: string) { forall i :: 0 <= i < |s| ==> IsDigit(s[i]) }

  function DigitChar(d: nat): (c: char)
    requires d < 10
    ensures IsDigit(c) && c as int - '0' as int == d
  {
    (48 + d) as char
  }

  function DigitValue(c: char): nat
    requires IsDigit(c)
  {
    c as int - '0' as int
  }

  /** The number a string of decimal digits denotes (0 for the empty string). */
  function DigitsValue(s: string): nat
    requires AllDigits(s)
  {
    if |s| == 0 then 0 else 10 * DigitsValue(s[..|s| - 1]) + DigitValue(s[|s| - 1])
  }

  /** `n.to_s` for a natural number: decimal digits, no leading zero. */
  function NatToString(n: nat): (r: string)
    ensures |r| >= 1 && AllDigits(r)
    ensures |r| > 1 ==> r[0] != '0'
  {
    if n < 10 then [DigitChar(n)] else NatToString(n / 10) + [DigitChar(n % 10)]
  }

  lemma {:induction false} NatToStringValue(n: nat)
    ensures DigitsValue(NatToString(n)) == n
  {
    if n >= 10 {
      NatToStringValue(n / 10);
      var r := NatToString(n);
      assert r[..|r| - 1] == NatToString(n / 10);
    }
  }

  /** `"%02d" % n` for `0 <= n < 100`. */
  function Pad2(n: nat): (r: string)
    requires n < 100
    ensures |r| == 2 && AllDigits(r) && DigitsValue(r) == n
  {
    var r := [DigitChar(n / 10), DigitChar(n % 10)];
    assert r[..1] == [DigitChar(n / 10)];
    assert r[..1][..0] == "";
    assert DigitsValue(r[..1]) == n / 10;
    r
  }

  /** Number of leading decimal digits of `s`. */
  function DigitRun(s: string): (n: nat)
    ensures n <= |s| && AllDigits(s[..n])
    ensures n < |s| ==> !IsDigit(s[n])
  {
    if |s| == 0 || !IsDigit(s[0]) then 0
    else
      var n := 1 + DigitRun(s[1..]);
      assert forall i :: 1 <= i < n ==> s[..n][i] == s[1..][..n - 1][i - 1];
      n
  }

  /** `s.to_i` on a token: an optional sign and the leading digits; 0 when there are none. */
  function ToI(s: string): int {
    if |s| > 0 && (s[0] == '-' || s[0] == '+') then
      var t := s[1..];
      var v: int := DigitsValue(t[..DigitRun(t)]);
      if s[0] == '-' then -v else v
    else DigitsValue(s[..DigitRun(s)])
  }

  /** `to_i` reads back what `to_s` writes, for either sign. */
  lemma ToIRoundTrip(n: int)
    ensures n >= 0 ==> ToI(NatToString(n)) == n
    ensures n < 0 ==> ToI("-" + NatToString(-n)) == n
  {
    var m: nat := if n >= 0 then n else -n;
    var d := NatToString(m);
    NatToStringValue(m);
    assert DigitRun(d) == |d| by { AllDigitsRun(d); }
    assert d[..|d|] == d;
    if n < 0 {
      assert ("-" + d)[1..] == d;
    }
  }

  lemma {:induction false} AllDigitsRun(s: string)
    requires AllDigits(s)
    ensures DigitRun(s) == |s|
  {
    if |s| > 0 {
      AllDigitsRun(s[1..]);
    }
  }
}
