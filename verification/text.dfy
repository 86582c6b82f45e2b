/** String helpers of the dashboard: `trim`, ASCII lower-casing, substring
    search, HTML escaping and the decimal count of a number format. */
module Text {
  import opened Common

  /** The characters `String.prototype.trim` removes: the white space and
      line terminator code points of section 12.2 and 12.3 of ECMA-262. */
  predicate IsSpace(c: char)
  {
    || c == '\t' || c == '\n' || c == '\U{000B}' || c == '\U{000C}' || c == '\r' || c == ' '
    || c == '\U{00A0}' || c == '\U{1680}' || ('\U{2000}' <= c <= '\U{200A}')
    || c == '\U{2028}' || c == '\U{2029}' || c == '\U{202F}' || c == '\U{205F}'
    || c == '\U{3000}' || c == '\U{FEFF}'
  }

  /** The number of white space characters at the front of `s`. */
  function LeadingSpace(s: string): (n: nat)
    ensures n <= |s|
    ensures forall k :: 0 <= k < n ==> IsSpace(s[k])
    ensures n < |s| ==> !IsSpace(s[n])
  {
    if |s| > 0 && IsSpace(s[0]) then 1 + LeadingSpace(s[1..]) else 0
  }

  /** The number of white space characters at the end of `s`. */
  function TrailingSpace(s: string): (n: nat)
    ensures n <= |s|
    ensures forall k :: |s| - n <= k < |s| ==> IsSpace(s[k])
    ensures n < |s| ==> !IsSpace(s[|s| - n - 1])
  {
    if |s| > 0 && IsSpace(s[|s| - 1]) then 1 + TrailingSpace(s[..|s| - 1]) else 0
  }

  /** `s.trim()`: `s` without the white space at either end. It is a slice
      of `s` with only white space cut off on either side, it is empty
      exactly when `s` is all white space, it neither starts nor ends with
      white space, and a string that does neither is its own trim. */
  function Trim(s: string): (r: string)
    ensures exists i, j :: 0 <= i <= j <= |s| && r == s[i..j] && CutIsSpace(s, i, j)
    ensures |r| <= |s|
    ensures |r| == 0 <==> forall k :: 0 <= k < |s| ==> IsSpace(s[k])
    ensures |r| > 0 ==> !IsSpace(r[0]) && !IsSpace(r[|r| - 1])
    ensures |s| > 0 && !IsSpace(s[0]) && !IsSpace(s[|s| - 1]) ==> r == s
  {
    var i := LeadingSpace(s);
    if i == |s| then
      assert s[i..i] == "" && CutIsSpace(s, i, i);
      ""
    else
      var j := |s| - TrailingSpace(s);
      assert i < j;
      assert CutIsSpace(s, i, j);
      s[i..j]
  }

  /** Everything of `s` before `i` and from `j` on is white space. */
  predicate CutIsSpace(s: string, i: nat, j: nat)
    requires i <= j <= |s|
  {
    && (forall k :: 0 <= k < i ==> IsSpace(s[k]))
    && (forall k :: j <= k < |s| ==> IsSpace(s[k]))
  }

  /** `s.trim() === ""`. */
  predicate IsBlank(s: string)
  {
    Trim(s) == ""
  }

  /** Trimming twice trims nothing more. */
  lemma TrimIdempotent(s: string)
    ensures Trim(Trim(s)) == Trim(s)
  {
  }

  /** ASCII `toLowerCase` of one character. */
  function LowerChar(c: char): (d: char)
    ensures 'A' <= c <= 'Z' ==> d as int == c as int + 32
    ensures !('A' <= c <= 'Z') ==> d == c
  {
    if 'A' <= c <= 'Z' then (c as int + 32) as char else c
  }

  /** `s.toLowerCase()` on the ASCII letters. */
  function Lower(s: string): (r: string)
    ensures |r| == |s|
    ensures forall k :: 0 <= k < |s| ==> r[k] == LowerChar(s[k])
  {
    if |s| == 0 then "" else Lower(s[..|s| - 1]) + [LowerChar(s[|s| - 1])]
  }

  /** Lower-casing a lower-cased string changes nothing, and it leaves no
      upper-case ASCII letter. */
  lemma {:induction false} LowerIdempotent(s: string)
    ensures Lower(Lower(s)) == Lower(s)
    ensures forall k :: 0 <= k < |s| ==> !('A' <= Lower(s)[k] <= 'Z')
  {
    var l := Lower(s);
    forall k | 0 <= k < |s|
      ensures Lower(l)[k] == l[k] && !('A' <= l[k] <= 'Z')
    {
      LowerCharFixed(s[k]);
    }
  }

  /** A lower-cased character is not an upper-case letter. */
  lemma LowerCharFixed(c: char)
    ensures !('A' <= LowerChar(c) <= 'Z')
    ensures LowerChar(LowerChar(c)) == LowerChar(c)
  {
  }

  /** `q` occurs in `s` starting at `i`. */
  predicate OccursAt(s: string, q: string, i: int)
  {
    0 <= i && i + |q| <= |s| && s[i..i + |q|] == q
  }

  /** `s.startsWith(q)`, character by character. */
  predicate StartsWith(s: string, q: string)
  {
    |q| <= |s| && (|q| == 0 || (s[0] == q[0] && StartsWith(s[1..], q[1..])))
  }

  lemma {:induction false} StartsWithOccurs(s: string, q: string)
    ensures StartsWith(s, q) <==> OccursAt(s, q, 0)
    decreases |q|
  {
    if |q| > 0 && |q| <= |s| {
      StartsWithOccurs(s[1..], q[1..]);
      assert s[..|q|] == [s[0]] + s[1..][..|q| - 1];
      assert q == [q[0]] + q[1..];
    }
  }

  /** `s.includes(q)`: a scan that tries every start position in turn; it
      holds exactly when `q` occurs somewhere in `s`. */
  function Includes(s: string, q: string): (b: bool)
    ensures b <==> exists i :: OccursAt(s, q, i)
    decreases |s|
  {
    StartsWithOccurs(s, q);
    if StartsWith(s, q) then true
    else if |s| == 0 then false
    else
      var b := Includes(s[1..], q);
      assert forall i :: OccursAt(s[1..], q, i) ==> OccursAt(s, q, i + 1) by {
        forall i | OccursAt(s[1..], q, i)
          ensures OccursAt(s, q, i + 1)
        {
          assert s[1..][i..i + |q|] == s[i + 1..i + 1 + |q|];
        }
      }
      assert forall i :: OccursAt(s, q, i) && i > 0 ==> OccursAt(s[1..], q, i - 1) by {
        forall i | OccursAt(s, q, i) && i > 0
          ensures OccursAt(s[1..], q, i - 1)
        {
          assert s[1..][i - 1..i - 1 + |q|] == s[i..i + |q|];
        }
      }
      b
  }

  /** `escapeHtml` of one character. */
  function EscapeChar(c: char): (r: string)
  {
    if c == '&' then "&amp;" else if c == '<' then "&lt;" else if c == '>' then "&gt;" else [c]
  }

  /** The escape applied character by character. */
  function EscapeChars(s: string): string
  {
    if |s| == 0 then "" else EscapeChars(s[..|s| - 1]) + EscapeChar(s[|s| - 1])
  }

  /** `s.replace(/c/g, rep)`: every occurrence of `c` replaced. */
  function ReplaceAll(s: string, c: char, rep: string): (r: string)
    ensures (forall k :: 0 <= k < |s| ==> s[k] != c) ==> r == s
  {
    if |s| == 0 then "" else ReplaceAll(s[..|s| - 1], c, rep) + (if s[|s| - 1] == c then rep else [s[|s| - 1]])
  }

  lemma ReplaceAllAppend(a: string, b: string, c: char, rep: string)
    ensures ReplaceAll(a + b, c, rep) == ReplaceAll(a, c, rep) + ReplaceAll(b, c, rep)
    decreases |b|
  {
    if |b| > 0 {
      assert (a + b)[..|a + b| - 1] == a + b[..|b| - 1];
      ReplaceAllAppend(a, b[..|b| - 1], c, rep);
    } else {
      assert a + b == a;
    }
  }

  /** The escaped text from the three global replacements in their order:
      ampersands first, then `<`, then `>`. */
  function ReplaceChain(s: string): string
  {
    ReplaceAll(ReplaceAll(ReplaceAll(s, '&', "&amp;"), '<', "&lt;"), '>', "&gt;")
  }

  /** `escapeHtml` (app.js:1456-1460): text that is not a string becomes a
      dash; a string gets its three special characters replaced. */
  function EscapeHtml(s: Option<string>): (r: string)
    ensures s.None? ==> r == "\U{2013}"
    ensures forall k :: 0 <= k < |r| ==> r[k] != '<' && r[k] != '>'
  {
    if s.None? then "\U{2013}"
    else
      ReplaceChainPerChar(s.value);
      EscapeNoBrackets(s.value);
      ReplaceChain(s.value)
  }

  /** Escaping loses nothing: decoding the three entities gives back the
      original text. */
  lemma EscapeHtmlRoundTrip(s: string)
    ensures Unescape(EscapeHtml(Some(s))) == s
  {
    ReplaceChainPerChar(s);
    UnescapeEscape(s);
  }

  lemma {:induction false} EscapeNoBrackets(s: string)
    ensures forall k :: 0 <= k < |EscapeChars(s)| ==> EscapeChars(s)[k] != '<' && EscapeChars(s)[k] != '>'
    decreases |s|
  {
    if |s| > 0 {
      EscapeNoBrackets(s[..|s| - 1]);
    }
  }

  /** Replacing in a string where the character does not occur changes
      nothing; replacing in a one-character string is that character's
      replacement. */
  lemma ReplaceAllOne(c: char, x: char, rep: string)
    ensures ReplaceAll([c], x, rep) == if c == x then rep else [c]
  {
    assert [c][..0] == [];
  }

  lemma ReplaceChainAppend(a: string, b: string)
    ensures ReplaceChain(a + b) == ReplaceChain(a) + ReplaceChain(b)
  {
    ReplaceAllAppend(a, b, '&', "&amp;");
    var a1 := ReplaceAll(a, '&', "&amp;");
    var b1 := ReplaceAll(b, '&', "&amp;");
    ReplaceAllAppend(a1, b1, '<', "&lt;");
    ReplaceAllAppend(ReplaceAll(a1, '<', "&lt;"), ReplaceAll(b1, '<', "&lt;"), '>', "&gt;");
  }

  lemma ReplaceChainOne(c: char)
    ensures ReplaceChain([c]) == EscapeChar(c)
  {
    ReplaceAllOne(c, '&', "&amp;");
    if c == '&' {
      assert ReplaceAll("&amp;", '<', "&lt;") == "&amp;";
      assert ReplaceAll("&amp;", '>', "&gt;") == "&amp;";
    } else if c == '<' {
      ReplaceAllOne(c, '<', "&lt;");
      assert ReplaceAll("&lt;", '>', "&gt;") == "&lt;";
    } else if c == '>' {
      ReplaceAllOne(c, '<', "&lt;");
      ReplaceAllOne(c, '>', "&gt;");
    } else {
      ReplaceAllOne(c, '<', "&lt;");
      ReplaceAllOne(c, '>', "&gt;");
    }
  }

  /** The three replacements in sequence escape each character on its own:
      a later pass never meets a character that an earlier one produced. */
  lemma {:induction false} ReplaceChainPerChar(s: string)
    ensures ReplaceChain(s) == EscapeChars(s)
    decreases |s|
  {
    if |s| > 0 {
      var p := s[..|s| - 1];
      var c := s[|s| - 1];
      assert s == p + [c];
      assert EscapeChars(s) == EscapeChars(p) + EscapeChar(c);
      ReplaceChainPerChar(p);
      ReplaceChainAppend(p, [c]);
      ReplaceChainOne(c);
    }
  }

  /** Decodes the three entities `escapeHtml` produces. */
  function Unescape(s: string): string
    decreases |s|
  {
    if |s| == 0 then ""
    else if |s| >= 5 && s[..5] == "&amp;" then "&" + Unescape(s[5..])
    else if |s| >= 4 && s[..4] == "&lt;" then "<" + Unescape(s[4..])
    else if |s| >= 4 && s[..4] == "&gt;" then ">" + Unescape(s[4..])
    else [s[0]] + Unescape(s[1..])
  }

  lemma {:induction false} EscapeCharsCons(c: char, s: string)
    ensures EscapeChars([c] + s) == EscapeChar(c) + EscapeChars(s)
    decreases |s|
  {
    if |s| == 0 {
      assert [c] + s == [c];
      assert EscapeChars([c]) == EscapeChars([]) + EscapeChar(c);
    } else {
      var u := [c] + s;
      var init := s[..|s| - 1];
      assert u[..|u| - 1] == [c] + init && u[|u| - 1] == s[|s| - 1];
      EscapeCharsCons(c, init);
      assert EscapeChars(u) == EscapeChars([c] + init) + EscapeChar(s[|s| - 1]);
      assert EscapeChars(s) == EscapeChars(init) + EscapeChar(s[|s| - 1]);
    }
  }

  /** Decoding an escaped character in front of `t` gives the character. */
  lemma UnescapeFront(c: char, t: string)
    ensures Unescape(EscapeChar(c) + t) == [c] + Unescape(t)
  {
    if c == '&' {
      UnescapeAmp(t);
    } else if c == '<' {
      UnescapeLt(t);
    } else if c == '>' {
      UnescapeGt(t);
    } else {
      UnescapePlain(c, t);
    }
  }

  lemma UnescapeAmp(t: string)
    ensures Unescape("&amp;" + t) == "&" + Unescape(t)
  {
    var e := "&amp;" + t;
    assert e[..5] == "&amp;" && e[5..] == t;
  }

  lemma UnescapeLt(t: string)
    ensures Unescape("&lt;" + t) == "<" + Unescape(t)
  {
    var e := "&lt;" + t;
    assert e[..4] == "&lt;" && e[4..] == t;
    assert |e| >= 5 ==> e[..5][1] == 'l';
  }

  lemma UnescapeGt(t: string)
    ensures Unescape("&gt;" + t) == ">" + Unescape(t)
  {
    var e := "&gt;" + t;
    assert e[..4] == "&gt;" && e[4..] == t;
    assert |e| >= 5 ==> e[..5][1] == 'g';
    assert e[..4][1] == 'g';
  }

  lemma UnescapePlain(c: char, t: string)
    requires c != '&' && c != '<' && c != '>'
    ensures Unescape([c] + t) == [c] + Unescape(t)
  {
    var e := [c] + t;
    assert e[0] == c && e[1..] == t;
    assert |e| >= 5 ==> e[..5][0] == c;
    assert |e| >= 4 ==> e[..4][0] == c;
  }

  /** Unescaping undoes `escapeHtml`: no text is lost or changed. */
  lemma {:induction false} UnescapeEscape(s: string)
    ensures Unescape(EscapeChars(s)) == s
    decreases |s|
  {
    if |s| > 0 {
      var c := s[0];
      var t := s[1..];
      assert s == [c] + t;
      EscapeCharsCons(c, t);
      UnescapeEscape(t);
      UnescapeFront(c, EscapeChars(t));
    }
  }

  /** The length of the run of `'0'` at the front of `s`. */
  function ZeroRun(s: string): (n: nat)
    ensures n <= |s|
    ensures forall k :: 0 <= k < n ==> s[k] == '0'
    ensures n < |s| ==> s[n] != '0'
  {
    if |s| > 0 && s[0] == '0' then 1 + ZeroRun(s[1..]) else 0
  }

  /** The first position of a `'.'` followed by a `'0'`. */
  function DotZero(s: string): (m: Option<nat>)
    ensures m.Some? ==> m.value + 1 < |s| && s[m.value] == '.' && s[m.value + 1] == '0'
    ensures m.Some? ==> forall i :: 0 <= i < m.value ==> !(s[i] == '.' && s[i + 1] == '0')
    ensures m.None? ==> forall i :: 0 <= i < |s| - 1 ==> !(s[i] == '.' && s[i + 1] == '0')
  {
    if |s| < 2 then None
    else if s[0] == '.' && s[1] == '0' then Some(0)
    else
      var m := DotZero(s[1..]);
      assert forall i :: 1 <= i < |s| ==> s[1..][i - 1] == s[i];
      if m.Some? then Some(m.value + 1) else None
  }

  /** A dot followed by `d` zeros. */
  function DotZeros(d: nat): (p: string)
    ensures |p| == d + 1 && p[0] == '.'
    ensures forall k :: 1 <= k <= d ==> p[k] == '0'
  {
    ['.'] + seq(d, _ => '0')
  }

  /** The first `.0` of `s` is at `i` and is followed by a maximal run of
      exactly `d` zeros. */
  predicate FirstZeroRun(s: string, i: nat, d: nat)
  {
    && OccursAt(s, DotZeros(d), i)
    && (i + 1 + d == |s| || s[i + 1 + d] != '0')
    && forall j :: 0 <= j < i ==> !(s[j] == '.' && s[j + 1] == '0')
  }

  /** `decimalsFromFmt` (app.js:242-246): a format that is not a string gets
      one decimal; otherwise the number of zeros after the first `.0`, and
      none when there is no `.0`. */
  function DecimalsFromFmt(fmt: Option<string>): (d: nat)
    ensures fmt.None? ==> d == 1
    ensures fmt.Some? && d > 0 ==> exists i :: FirstZeroRun(fmt.value, i, d)
    ensures fmt.Some? ==> (d == 0 <==> forall i :: 0 <= i < |fmt.value| - 1 ==> !(fmt.value[i] == '.' && fmt.value[i + 1] == '0'))
  {
    if fmt.None? then 1
    else
      var s := fmt.value;
      match DotZero(s)
      case None => 0
      case Some(i) =>
        var d := ZeroRun(s[i + 1..]);
        assert s[i..i + 1 + d] == DotZeros(d);
        assert FirstZeroRun(s, i, d);
        d
  }
}
