/**
 * The few Python string built-ins the core relies on, with their Python
 * semantics: `str.isspace`, `str.split()` with no separator, `' '.join`,
 * `str.strip()`, `re.sub(r'\s+', ' ', s)`, the `in` substring test and `str(int)`.
 */
module Text {

  /** Python's `str.isspace()` for one character (the characters `\s` matches too). */
  predicate IsSpace(c: char) {
    || c == ' ' || c == '\t' || c == '\n' || c == '\r'
    || c == '\U{0B}' || c == '\U{0C}'
    || ('\U{1C}' <= c <= '\U{1F}')
    || c == '\U{85}' || c == '\U{A0}' || c == '\U{1680}'
    || ('\U{2000}' <= c <= '\U{200A}')
    || c == '\U{2028}' || c == '\U{2029}' || c == '\U{202F}' || c == '\U{205F}' || c == '\U{3000}'
  }

  /** A word as `str.split()` produces it: non-empty, no whitespace. */
  predicate IsWord(w: string) {
    w != [] && forall k :: 0 <= k < |w| ==> !IsSpace(w[k])
  }

  /** Length of the leading run of non-whitespace characters. */
  function WordLen(s: string): (n: nat)
    ensures n <= |s|
    ensures forall k :: 0 <= k < n ==> !IsSpace(s[k])
    ensures n < |s| ==> IsSpace(s[n])
  {
    if s == [] || IsSpace(s[0]) then 0 else 1 + WordLen(s[1..])
  }

  /** `s.split()`: the maximal whitespace-free runs of `s`, in order. */
  function Words(s: string): (ws: seq<string>)
    ensures forall i :: 0 <= i < |ws| ==> IsWord(ws[i])
    decreases |s|
  {
    if s == [] then []
    else if IsSpace(s[0]) then Words(s[1..])
    else
      var n := WordLen(s);
      [s[..n]] + Words(s[n..])
  }

  /** `sep.join(ws)`. */
  function Join(ws: seq<string>, sep: string): string {
    if ws == [] then ""
    else if |ws| == 1 then ws[0]
    else ws[0] + sep + Join(ws[1..], sep)
  }

  /** `str.strip()`: drops leading and trailing whitespace. */
  function Strip(s: string): (r: string)
    ensures r != [] ==> !IsSpace(r[0]) && !IsSpace(r[|r| - 1])
  {
    StripRight(StripLeft(s))
  }

  function StripLeft(s: string): (r: string)
    ensures r != [] ==> !IsSpace(r[0])
    ensures |r| <= |s| && r == s[|s| - |r|..]
  {
    if s != [] && IsSpace(s[0]) then StripLeft(s[1..]) else s
  }

  function StripRight(s: string): (r: string)
    ensures r != [] ==> !IsSpace(r[|r| - 1])
    ensures |r| <= |s| && r == s[..|r|]
    ensures s != [] && !IsSpace(s[0]) ==> r != [] && r[0] == s[0]
  {
    if s != [] && IsSpace(s[|s| - 1]) then StripRight(s[..|s| - 1]) else s
  }

  /** `re.sub(r'\s+', ' ', s)`: every maximal whitespace run becomes one space. */
  function CollapseWhitespace(s: string): (r: string)
    ensures r != [] && IsSpace(r[0]) ==> s != [] && IsSpace(s[0])
    decreases |s|
  {
    if s == [] then ""
    else if IsSpace(s[0]) then " " + CollapseWhitespace(StripLeft(s))
    else [s[0]] + CollapseWhitespace(s[1..])
  }

  /** No whitespace other than single spaces: what `CollapseWhitespace` produces. */
  predicate Collapsed(s: string) {
    forall k :: 0 <= k < |s| && IsSpace(s[k]) ==> s[k] == ' ' && (k + 1 < |s| ==> !IsSpace(s[k + 1]))
  }

  /** Python's `t in s` for strings. */
  predicate IsSubstring(t: string, s: string) {
    exists i | 0 <= i <= |s| - |t| :: OccursAt(t, s, i)
  }

  predicate OccursAt(t: string, s: string, i: int) {
    0 <= i <= |s| - |t| && s[i..i + |t|] == t
  }

  /** Python's `str(n)` for an integer. */
  function IntToString(n: int): (r: string)
    ensures r != []
    ensures forall k :: 0 <= k < |r| ==> r[k] == '-' || '0' <= r[k] <= '9'
  {
    if n < 0 then "-" + NatToString(-n) else NatToString(n)
  }

  function NatToString(n: nat): (r: string)
    ensures r != []
    ensures forall k :: 0 <= k < |r| ==> '0' <= r[k] <= '9'
  {
    var digit := ['0' + (n % 10) as char];
    if n < 10 then digit else NatToString(n / 10) + digit
  }

  // ---------------------------------------------------------------------
  // Properties

  /** The leading word of `w + t` is `w` when `t` is empty or starts with whitespace. */
  lemma {:induction false} WordLenOfWord(w: string, t: string)
    requires forall k :: 0 <= k < |w| ==> !IsSpace(w[k])
    requires t == [] || IsSpace(t[0])
    ensures WordLen(w + t) == |w|
  {
    if w != [] {
      assert (w + t)[1..] == w[1..] + t;
      WordLenOfWord(w[1..], t);
    }
  }

  lemma WordsOfWordThen(w: string, t: string)
    requires IsWord(w)
    requires t == [] || IsSpace(t[0])
    ensures Words(w + t) == [w] + Words(t)
  {
    WordLenOfWord(w, t);
    assert (w + t)[..|w|] == w;
    assert (w + t)[|w|..] == t;
  }

  /** `str.split()` undoes `' '.join` on a list of words. */
  lemma {:induction false} WordsOfJoin(ws: seq<string>)
    requires forall i :: 0 <= i < |ws| ==> IsWord(ws[i])
    ensures Words(Join(ws, " ")) == ws
  {
    if ws == [] {
    } else if |ws| == 1 {
      WordsOfWordThen(ws[0], "");
      assert ws[0] + "" == ws[0];
    } else {
      var rest := Join(ws[1..], " ");
      assert Join(ws, " ") == ws[0] + (" " + rest);
      WordsOfWordThen(ws[0], " " + rest);
      assert (" " + rest)[1..] == rest;
      WordsOfJoin(ws[1..]);
    }
  }

  /** A single word splits to itself. */
  lemma WordsOfOneWord(w: string)
    requires IsWord(w)
    ensures Words(w) == [w]
  {
    WordsOfJoin([w]);
  }

  /** `re.sub(r'\s+', ' ', s)` leaves only single spaces as whitespace. */
  lemma {:induction false} CollapseWhitespaceIsCollapsed(s: string)
    ensures Collapsed(CollapseWhitespace(s))
    decreases |s|
  {
    if s == [] {
    } else if IsSpace(s[0]) {
      var rest := StripLeft(s);
      CollapseWhitespaceIsCollapsed(rest);
      var r := CollapseWhitespace(rest);
      assert r != [] ==> !IsSpace(r[0]);
      assert CollapseWhitespace(s) == " " + r;
    } else {
      CollapseWhitespaceIsCollapsed(s[1..]);
      assert CollapseWhitespace(s) == [s[0]] + CollapseWhitespace(s[1..]);
    }
  }

  /** A collapsed string is left alone by `re.sub(r'\s+', ' ', ...)`. */
  lemma {:induction false} CollapsedIsFixed(s: string)
    requires Collapsed(s)
    ensures CollapseWhitespace(s) == s
    decreases |s|
  {
    if s != [] {
      CollapsedTail(s);
      CollapsedIsFixed(s[1..]);
      if IsSpace(s[0]) {
        // a single space, followed by a non-space or by nothing
        assert s[0] == ' ';
        assert s[1..] == [] || !IsSpace(s[1..][0]);
        assert StripLeft(s[1..]) == s[1..];
        assert CollapseWhitespace(s) == " " + s[1..];
      } else {
        assert CollapseWhitespace(s) == [s[0]] + s[1..];
      }
      assert s == [s[0]] + s[1..];
    }
  }

  lemma CollapsedTail(s: string)
    requires s != [] && Collapsed(s)
    ensures Collapsed(s[1..])
  {
    forall k | 0 <= k < |s[1..]| && IsSpace(s[1..][k])
      ensures s[1..][k] == ' ' && (k + 1 < |s[1..]| ==> !IsSpace(s[1..][k + 1]))
    {
      assert s[1..][k] == s[k + 1];
    }
  }

  /** Collapsing whitespace twice is the same as collapsing it once. */
  lemma CollapseWhitespaceIdempotent(s: string)
    ensures CollapseWhitespace(CollapseWhitespace(s)) == CollapseWhitespace(s)
  {
    CollapseWhitespaceIsCollapsed(s);
    CollapsedIsFixed(CollapseWhitespace(s));
  }
}
