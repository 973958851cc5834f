/** The JavaScript string operations the route editor relies on:
    `String.prototype.trim`, `String.prototype.split` with a one-character
    separator, and `Array.prototype.join` as its inverse. */
module Text {

  /** The code points `trim` strips: ECMAScript WhiteSpace (TAB, VT, FF,
      ZWNBSP and every Unicode "Space_Separator") and LineTerminator (LF, CR,
      LINE SEPARATOR, PARAGRAPH SEPARATOR). */
  predicate IsJsWhitespace(c: char) {
    || c == '\t' || c == '\n' || c == '\U{000B}' || c == '\U{000C}' || c == '\r'
    || c == ' ' || c == '\U{00A0}' || c == '\U{1680}'
    || ('\U{2000}' <= c <= '\U{200A}')
    || c == '\U{2028}' || c == '\U{2029}' || c == '\U{202F}' || c == '\U{205F}'
    || c == '\U{3000}' || c == '\U{FEFF}'
  }

  predicate AllWhitespace(s: string) {
    forall i | 0 <= i < |s| :: IsJsWhitespace(s[i])
  }

  /** Neither the first nor the last character is whitespace. */
  predicate Trimmed(s: string) {
    |s| == 0 || (!IsJsWhitespace(s[0]) && !IsJsWhitespace(s[|s| - 1]))
  }

  /** How many whitespace characters `s` starts with. */
  function LeadingWhitespace(s: string): (n: nat)
    ensures n <= |s|
    ensures forall i | 0 <= i < n :: IsJsWhitespace(s[i])
    ensures n == |s| || !IsJsWhitespace(s[n])
  {
    if |s| > 0 && IsJsWhitespace(s[0]) then
      var n := 1 + LeadingWhitespace(s[1..]);
      assert forall i | 1 <= i < n :: s[i] == s[1..][i - 1];
      n
    else 0
  }

  /** Where the whitespace run that ends at position `end` of `s` begins. */
  function TrailingCut(s: string, end: nat): (m: nat)
    requires end <= |s|
    ensures m <= end
    ensures forall i | m <= i < end :: IsJsWhitespace(s[i])
    ensures m == 0 || !IsJsWhitespace(s[m - 1])
  {
    if end > 0 && IsJsWhitespace(s[end - 1]) then TrailingCut(s, end - 1) else end
  }

  /** `s.trim()`: the result has no whitespace at either end, it is what is
      left of `s` after removing whitespace from the two ends only, and a
      string that is already trimmed comes back unchanged. */
  function Trim(s: string): (r: string)
    ensures Trimmed(r)
    ensures exists lead, trail :: s == lead + r + trail && AllWhitespace(lead) && AllWhitespace(trail)
    ensures forall c | c in r :: c in s
    ensures Trimmed(s) ==> r == s
  {
    var a := LeadingWhitespace(s);
    var b := if a == |s| then a else TrailingCut(s, |s|);
    TrimBounds(s, a, b);
    s[a..b]
  }

  /** The piece between a whitespace prefix `s[..a]` and a whitespace suffix
      `s[b..]` that are both as long as possible is what `trim` returns. */
  lemma {:induction false} TrimBounds(s: string, a: nat, b: nat)
    requires a <= |s| && b <= |s|
    requires forall i | 0 <= i < a :: IsJsWhitespace(s[i])
    requires a == |s| || !IsJsWhitespace(s[a])
    requires a == |s| ==> b == a
    requires forall i | b <= i < |s| :: IsJsWhitespace(s[i])
    requires a < |s| ==> b == 0 || !IsJsWhitespace(s[b - 1])
    ensures a <= b
    ensures Trimmed(s[a..b])
    ensures s == s[..a] + s[a..b] + s[b..] && AllWhitespace(s[..a]) && AllWhitespace(s[b..])
    ensures forall c | c in s[a..b] :: c in s
    ensures Trimmed(s) ==> s[a..b] == s
  {
  }

  /** `s.split(sep)` for a one-character separator: the separator-free pieces
      between the occurrences of `sep`, in order; there is always at least
      one, so `"".split(",")` is `[""]`. */
  function Split(s: string, sep: char): (r: seq<string>)
    ensures |r| >= 1
    ensures forall i | 0 <= i < |r| :: sep !in r[i]
  {
    if |s| == 0 then [""]
    else
      var rest := Split(s[1..], sep);
      if s[0] == sep then [""] + rest
      else [[s[0]] + rest[0]] + rest[1..]
  }

  /** There is one more piece than there are separators. */
  lemma {:induction false} SplitCount(s: string, sep: char)
    ensures |Split(s, sep)| == multiset(s)[sep] + 1
  {
    if |s| > 0 {
      SplitCount(s[1..], sep);
      assert s == [s[0]] + s[1..];
    }
  }

  /** `xs.join(sep)` for a one-character separator (an array of strings shown
      by `toString` is `Join(xs, ',')`). */
  function Join(xs: seq<string>, sep: char): string {
    if |xs| == 0 then ""
    else if |xs| == 1 then xs[0]
    else xs[0] + [sep] + Join(xs[1..], sep)
  }

  /** Joining behind a first piece puts one separator between them. */
  lemma {:induction false} JoinCons(x: string, xs: seq<string>, sep: char)
    requires |xs| >= 1
    ensures Join([x] + xs, sep) == x + [sep] + Join(xs, sep)
  {
  }

  /** A character in front of the first piece ends up in front of the join. */
  lemma {:induction false} JoinPrependChar(c: char, xs: seq<string>, sep: char)
    requires |xs| >= 1
    ensures Join([[c] + xs[0]] + xs[1..], sep) == [c] + Join(xs, sep)
  {
  }

  /** Joining the pieces of a split with the same separator gives back the text. */
  lemma {:induction false} JoinSplit(s: string, sep: char)
    ensures Join(Split(s, sep), sep) == s
  {
    if |s| > 0 {
      var rest := Split(s[1..], sep);
      var r := Split(s, sep);
      JoinSplit(s[1..], sep);
      if s[0] == sep {
        assert r == [""] + rest;
        JoinCons("", rest, sep);
        assert Join(r, sep) == [sep] + s[1..];
      } else {
        assert r == [[s[0]] + rest[0]] + rest[1..];
        JoinPrependChar(s[0], rest, sep);
        assert Join(r, sep) == [s[0]] + s[1..];
      }
      assert s == [s[0]] + s[1..];
    }
  }

  /** A character other than the separator joins the first piece. */
  lemma {:induction false} SplitConsChar(c: char, t: string, sep: char)
    requires c != sep
    ensures Split([c] + t, sep) == [[c] + Split(t, sep)[0]] + Split(t, sep)[1..]
  {
  }

  /** A separator-free prefix ends up glued to the first piece of what follows. */
  lemma {:induction false} SplitSeparatorFreePrefix(a: string, b: string, sep: char)
    requires sep !in a
    ensures Split(a + b, sep) == [a + Split(b, sep)[0]] + Split(b, sep)[1..]
  {
    var r := Split(b, sep);
    if |a| > 0 {
      var c, a' := a[0], a[1..];
      assert a == [c] + a';
      assert c != sep && sep !in a';
      SplitSeparatorFreePrefix(a', b, sep);
      var rest := Split(a' + b, sep);
      calc {
        Split(a + b, sep);
        { assert a + b == [c] + (a' + b); }
        Split([c] + (a' + b), sep);
        { SplitConsChar(c, a' + b, sep); }
        [[c] + rest[0]] + rest[1..];
        { assert rest[0] == a' + r[0] && rest[1..] == r[1..]; }
        [[c] + (a' + r[0])] + r[1..];
        { assert [c] + (a' + r[0]) == a + r[0]; }
        [a + r[0]] + r[1..];
      }
    } else {
      assert a + b == b && a + r[0] == r[0];
      assert r == [r[0]] + r[1..];
    }
  }

  /** A leading separator yields an empty first piece. */
  lemma {:induction false} SplitLeadingSeparator(b: string, sep: char)
    ensures Split([sep] + b, sep) == [""] + Split(b, sep)
  {
  }

  /** Splitting the join of at least one separator-free piece gives back the
      pieces: `join` and `split` are inverse on such lists. */
  lemma {:induction false} SplitJoin(xs: seq<string>, sep: char)
    requires |xs| >= 1
    requires forall i | 0 <= i < |xs| :: sep !in xs[i]
    ensures Split(Join(xs, sep), sep) == xs
  {
    if |xs| == 1 {
      SplitSeparatorFreePrefix(xs[0], "", sep);
      assert xs[0] + "" == xs[0];
    } else {
      var tail := Join(xs[1..], sep);
      var b := [sep] + tail;
      SplitJoin(xs[1..], sep);
      SplitLeadingSeparator(tail, sep);
      assert Split(b, sep) == [""] + xs[1..];
      SplitSeparatorFreePrefix(xs[0], b, sep);
      assert Join(xs, sep) == xs[0] + b;
      assert Split(b, sep)[0] == "" && Split(b, sep)[1..] == xs[1..];
      assert xs[0] + "" == xs[0];
      assert [xs[0]] + xs[1..] == xs;
    }
  }
}
