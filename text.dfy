/**
 * The string operations the bot applies to inbound text: Python's `str.strip()`,
 * `str.lower()`, `str.split()` without argument, `in` and `str.split(':', 1)`,
 * `str.join`, and the code-point order Python uses to compare strings.
 */
module Text {
  import opened Wrappers

  /** Python's `str.isspace()`, the set `strip()` and `split()` remove. */
  predicate IsSpace(c: char)
    ensures c == ' ' || c == '\t' || c == '\n' || c == '\r' ==> IsSpace(c)
    ensures '!' <= c <= '~' ==> !IsSpace(c)
  {
    c == ' ' || ('\t' <= c <= '\r') || ('\U{1C}' <= c <= '\U{1F}') ||
    c == '\U{85}' || c == '\U{A0}' || c == '\U{1680}' ||
    ('\U{2000}' <= c <= '\U{200A}') || c == '\U{2028}' || c == '\U{2029}' ||
    c == '\U{202F}' || c == '\U{205F}' || c == '\U{3000}'
  }

  predicate NoSpace(s: string) {
    forall i | 0 <= i < |s| :: !IsSpace(s[i])
  }

  /** A word of `split()`: non-empty, without whitespace. */
  predicate IsWord(w: string) {
    w != [] && NoSpace(w)
  }

  predicate AllSpace(s: string) {
    forall i | 0 <= i < |s| :: IsSpace(s[i])
  }

  /** Number of leading whitespace characters of `s`. */
  function LeadingSpace(s: string): (n: nat)
    ensures n <= |s|
    ensures AllSpace(s[..n])
    ensures n < |s| ==> !IsSpace(s[n])
  {
    if s == [] || !IsSpace(s[0]) then 0 else 1 + LeadingSpace(s[1..])
  }

  /** Length of `s` once its trailing whitespace is removed. */
  function TrailingEnd(s: string): (n: nat)
    ensures n <= |s|
    ensures AllSpace(s[n..])
    ensures n > 0 ==> !IsSpace(s[n - 1])
  {
    if s == [] || !IsSpace(s[|s| - 1]) then |s| else TrailingEnd(s[..|s| - 1])
  }

  /** Python's `s.strip()`: `s` without its leading and trailing whitespace. */
  function Trim(s: string): (r: string)
    ensures r == [] || (!IsSpace(r[0]) && !IsSpace(r[|r| - 1]))
    ensures LeadingSpace(s) + |r| <= |s|
    ensures r == s[LeadingSpace(s)..LeadingSpace(s) + |r|]
    ensures AllSpace(s[..LeadingSpace(s)]) && AllSpace(s[LeadingSpace(s) + |r|..])
  {
    var a := LeadingSpace(s);
    var t := s[a..];
    var b := TrailingEnd(t);
    assert s[a + b..] == t[b..];
    assert b > 0 ==> t[0] == s[a];
    t[..b]
  }

  /** Stripping whitespace a second time changes nothing. */
  lemma TrimIdempotent(s: string)
    ensures Trim(Trim(s)) == Trim(s)
  {
    var r := Trim(s);
    assert LeadingSpace(r) == 0;
    if r != [] {
      assert TrailingEnd(r) == |r|;
    }
  }

  /** A string strips to nothing exactly when it is all whitespace. */
  lemma TrimEmptyIffAllSpace(s: string)
    ensures Trim(s) == [] <==> AllSpace(s)
  {
    var a := LeadingSpace(s);
    assert Trim(s) != [] ==> Trim(s)[0] == s[a];
    assert Trim(s) == [] ==> a == |s| && s[..a] == s;
  }

  /** Python's `str.lower()` on one character: ASCII and Latin-1 capitals. */
  function LowerChar(c: char): (d: char)
    ensures 'A' <= c <= 'Z' ==> d as int == c as int + 32
    ensures !('A' <= c <= 'Z') && !('\U{C0}' <= c <= '\U{DE}') ==> d == c
  {
    if 'A' <= c <= 'Z' || ('\U{C0}' <= c <= '\U{DE}' && c != '\U{D7}') then
      (c as int + 32) as char
    else
      c
  }

  /** Python's `str.lower()`, character by character. */
  function Lower(s: string): (r: string)
    ensures |r| == |s|
  {
    seq(|s|, i requires 0 <= i < |s| => LowerChar(s[i]))
  }

  /** Lower-casing twice is lower-casing once. */
  lemma LowerIdempotent(s: string)
    ensures Lower(Lower(s)) == Lower(s)
  {
    forall i | 0 <= i < |s| ensures Lower(Lower(s))[i] == Lower(s)[i] {
      var c := s[i];
      assert LowerChar(LowerChar(c)) == LowerChar(c);
    }
  }

  /** The first position of `c` in `s`, which decides `c in s` and where `s.split(c, 1)` cuts. */
  function IndexOf(s: string, c: char): (r: Option<nat>)
    ensures r.None? <==> c !in s
    ensures r.Some? ==> r.value < |s| && s[r.value] == c && c !in s[..r.value]
  {
    if s == [] then None
    else if s[0] == c then Some(0)
    else match IndexOf(s[1..], c)
      case None => None
      case Some(i) =>
        assert s[..i + 1] == [s[0]] + s[1..][..i];
        Some(i + 1)
  }

  /** Length of the run of non-whitespace characters at the head of `s`. */
  function WordLength(s: string): (n: nat)
    ensures n <= |s| && NoSpace(s[..n])
    ensures n < |s| ==> IsSpace(s[n])
  {
    if s == [] || IsSpace(s[0]) then 0 else 1 + WordLength(s[1..])
  }

  /** Python's `s.split()` without argument: the maximal runs of non-whitespace. */
  function Words(s: string): (ws: seq<string>)
    ensures forall k | 0 <= k < |ws| :: IsWord(ws[k])
    ensures ws == [] <==> AllSpace(s)
    decreases |s|
  {
    if s == [] then []
    else if IsSpace(s[0]) then
      assert AllSpace(s) <==> AllSpace(s[1..]) by {
        assert forall i | 1 <= i < |s| :: s[i] == s[1..][i - 1];
      }
      Words(s[1..])
    else
      var n := WordLength(s);
      assert IsWord(s[..n]) by { assert s[..n][0] == s[0]; }
      [s[..n]] + Words(s[n..])
  }

  lemma {:induction false} WordLengthOfWord(w: string, rest: string)
    requires NoSpace(w) && (rest == [] || IsSpace(rest[0]))
    ensures WordLength(w + rest) == |w|
  {
    if w != [] {
      assert (w + rest)[1..] == w[1..] + rest;
      WordLengthOfWord(w[1..], rest);
    } else {
      assert w + rest == rest;
    }
  }

  /** `split()` takes a word that is followed by whitespace or the end as the first item. */
  lemma WordsOfWordThen(w: string, rest: string)
    requires IsWord(w) && (rest == [] || IsSpace(rest[0]))
    ensures Words(w + rest) == [w] + Words(rest)
  {
    var s := w + rest;
    assert s[0] == w[0];
    WordLengthOfWord(w, rest);
    assert s[..|w|] == w && s[|w|..] == rest;
  }

  /** A single word splits into itself. */
  lemma WordsOfSingleWord(w: string)
    requires IsWord(w)
    ensures Words(w) == [w]
  {
    WordsOfWordThen(w, "");
    assert w + "" == w;
  }

  /** Two words separated by one whitespace character split into those two words. */
  lemma WordsOfTwo(w1: string, c: char, w2: string)
    requires IsWord(w1) && IsSpace(c) && IsWord(w2)
    ensures Words(w1 + [c] + w2) == [w1, w2]
  {
    WordsOfWordSpaceWord(w1, c, w2);
    RegroupTwo(w1, c, w2);
  }

  lemma RegroupTwo(w1: string, c: char, w2: string)
    ensures w1 + [c] + w2 == w1 + ([c] + w2)
    ensures [w1] + [w2] == [w1, w2]
  {
  }

  lemma WordsOfWordSpaceWord(w1: string, c: char, w2: string)
    requires IsWord(w1) && IsSpace(c) && IsWord(w2)
    ensures Words(w1 + ([c] + w2)) == [w1] + [w2]
  {
    WordsOfSpaceWord(c, w2);
    WordsOfWordThen(w1, [c] + w2);
  }

  lemma WordsOfSpaceWord(c: char, w: string)
    requires IsSpace(c) && IsWord(w)
    ensures Words([c] + w) == [w]
  {
    WordsSkipSpace(c, w);
    WordsOfSingleWord(w);
  }

  lemma WordsOfWordSpace(w: string, c: char, rest: string)
    requires IsWord(w) && IsSpace(c)
    ensures Words(w + ([c] + rest)) == [w] + Words(rest)
  {
    WordsSkipSpace(c, rest);
    WordsOfWordThen(w, [c] + rest);
  }

  /**
   * With the all-whitespace case of `Words`, this equation determines
   * `split()` completely: leading whitespace, then a word ended by whitespace
   * or by the end of the text, gives that word and the split of the rest.
   */
  lemma {:induction false} WordsOfSpacesWordThen(sp: string, w: string, rest: string)
    requires AllSpace(sp) && IsWord(w) && (rest == [] || IsSpace(rest[0]))
    ensures Words(sp + w + rest) == [w] + Words(rest)
    decreases |sp|
  {
    if sp == [] {
      assert sp + w + rest == w + rest;
      WordsOfWordThen(w, rest);
    } else {
      RegroupLead(sp, w, rest);
      assert IsSpace(sp[0]);
      assert AllSpace(sp[1..]) by {
        forall i | 0 <= i < |sp| - 1 ensures IsSpace(sp[1..][i]) {
          assert sp[1..][i] == sp[i + 1];
        }
      }
      WordsSkipSpace(sp[0], sp[1..] + w + rest);
      WordsOfSpacesWordThen(sp[1..], w, rest);
    }
  }

  lemma RegroupLead(sp: string, w: string, rest: string)
    requires sp != []
    ensures sp + w + rest == [sp[0]] + (sp[1..] + w + rest)
  {
    assert sp == [sp[0]] + sp[1..];
  }

  /** The items of `split()`, put back together, are the text without its whitespace. */
  lemma {:induction false} WordsConcat(s: string)
    ensures Concat(Words(s)) == RemoveSpace(s)
    decreases |s|
  {
    if s != [] {
      if IsSpace(s[0]) {
        WordsConcat(s[1..]);
      } else {
        var n := WordLength(s);
        WordsConcat(s[n..]);
        RemoveSpaceAppend(s[..n], s[n..]);
        RemoveSpaceOfWord(s[..n]);
        assert s[..n] + s[n..] == s;
        assert Words(s)[1..] == Words(s[n..]);
      }
    }
  }

  /** The strings of `ws` one after the other. */
  function Concat(ws: seq<string>): string {
    if ws == [] then [] else ws[0] + Concat(ws[1..])
  }

  /** `s` with every whitespace character dropped. */
  function RemoveSpace(s: string): string {
    if s == [] then [] else (if IsSpace(s[0]) then [] else [s[0]]) + RemoveSpace(s[1..])
  }

  lemma {:induction false} RemoveSpaceAppend(a: string, b: string)
    ensures RemoveSpace(a + b) == RemoveSpace(a) + RemoveSpace(b)
  {
    if a != [] {
      assert (a + b)[1..] == a[1..] + b;
      RemoveSpaceAppend(a[1..], b);
    } else {
      assert a + b == b;
    }
  }

  lemma {:induction false} RemoveSpaceOfWord(w: string)
    requires NoSpace(w)
    ensures RemoveSpace(w) == w
  {
    if w != [] {
      RemoveSpaceOfWord(w[1..]);
    }
  }

  /** `split()` ignores leading whitespace. */
  lemma WordsSkipSpace(c: char, x: string)
    requires IsSpace(c)
    ensures Words([c] + x) == Words(x)
  {
    assert ([c] + x)[1..] == x;
  }

  /** Python's `sep.join(xs)`. */
  function Join(sep: string, xs: seq<string>): (r: string)
    ensures xs == [] ==> r == []
    ensures |xs| == 1 ==> r == xs[0]
    ensures xs != [] ==> xs[0] <= r && |r| == TotalLength(xs) + |sep| * (|xs| - 1)
  {
    if xs == [] then []
    else if |xs| == 1 then xs[0]
    else xs[0] + sep + Join(sep, xs[1..])
  }

  /** Joining two non-empty lists is joining each and putting one separator between them. */
  lemma {:induction false} JoinAppend(sep: string, a: seq<string>, b: seq<string>)
    requires a != [] && b != []
    ensures Join(sep, a + b) == Join(sep, a) + sep + Join(sep, b)
  {
    if |a| == 1 {
      assert (a + b)[1..] == b;
    } else {
      assert (a + b)[1..] == a[1..] + b;
      JoinAppend(sep, a[1..], b);
      assert a[0] + sep + (Join(sep, a[1..]) + sep + Join(sep, b)) == a[0] + sep + Join(sep, a[1..]) + sep + Join(sep, b);
    }
  }

  function TotalLength(xs: seq<string>): nat {
    if xs == [] then 0 else |xs[0]| + TotalLength(xs[1..])
  }

  /** Python's `a < b` on `str`: lexicographic by code point. */
  predicate LexLess(a: string, b: string)
    ensures a < b ==> LexLess(a, b)
    ensures b <= a ==> !LexLess(a, b)
  {
    if a == [] then b != []
    else if b == [] then false
    else if a[0] != b[0] then a[0] < b[0]
    else LexLess(a[1..], b[1..])
  }

  lemma {:induction false} LexLessIrreflexive(a: string)
    ensures !LexLess(a, a)
  {
    if a != [] { LexLessIrreflexive(a[1..]); }
  }

  lemma {:induction false} LexLessTransitive(a: string, b: string, c: string)
    requires LexLess(a, b) && LexLess(b, c)
    ensures LexLess(a, c)
  {
    if a != [] && a[0] == b[0] && b[0] == c[0] {
      LexLessTransitive(a[1..], b[1..], c[1..]);
    }
  }

  lemma {:induction false} LexLessTotal(a: string, b: string)
    ensures a == b || LexLess(a, b) || LexLess(b, a)
  {
    if a != [] && b != [] && a[0] == b[0] {
      LexLessTotal(a[1..], b[1..]);
      if a[1..] == b[1..] {
        assert a == [a[0]] + a[1..] && b == [b[0]] + b[1..];
      }
    }
  }
}
