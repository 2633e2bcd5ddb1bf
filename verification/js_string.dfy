/**
 * The JavaScript string built-ins that the page-selection parser, the multipart reader and the
 * calendar export rely on (`indexOf`, `lastIndexOf`, `includes`, `split`, `join`, `trim`,
 * `substring`, `slice` and `replace` with a global one-character pattern), over strings as
 * sequences of characters.
 */
module JsString {

  /** `pat` occurs in `s` starting at index `i`. */
  predicate OccursAt(s: string, pat: string, i: int)
  {
    0 <= i && i + |pat| <= |s| && s[i..i + |pat|] == pat
  }

  /** `s.indexOf(pat, from)`: the first index at or after `from` where `pat` occurs, or -1. */
  function IndexOfFrom(s: string, pat: string, from: nat): (r: int)
    ensures r == -1 || (from <= r && OccursAt(s, pat, r))
    ensures forall p :: from <= p && (r == -1 || p < r) ==> !OccursAt(s, pat, p)
    decreases |s| - from
  {
    if from + |pat| > |s| then -1
    else if s[from..from + |pat|] == pat then from
    else IndexOfFrom(s, pat, from + 1)
  }

  /** `s.indexOf(pat)`. */
  function IndexOf(s: string, pat: string): (r: int)
    ensures r == -1 || OccursAt(s, pat, r)
    ensures forall p :: 0 <= p && (r == -1 || p < r) ==> !OccursAt(s, pat, p)
  {
    IndexOfFrom(s, pat, 0)
  }

  /** The last index at or below `k` where `pat` occurs in `s`, or -1. */
  function LastIndexAtOrBelow(s: string, pat: string, k: int): (r: int)
    ensures r == -1 || (r <= k && OccursAt(s, pat, r))
    ensures forall p :: r < p <= k ==> !OccursAt(s, pat, p)
    decreases k + 1
  {
    if k < 0 then -1
    else if OccursAt(s, pat, k) then k
    else LastIndexAtOrBelow(s, pat, k - 1)
  }

  /** `s.lastIndexOf(pat)`: the last index where `pat` occurs, or -1. */
  function LastIndexOf(s: string, pat: string): (r: int)
    ensures r == -1 || OccursAt(s, pat, r)
    ensures forall p :: r < p ==> !OccursAt(s, pat, p)
  {
    LastIndexAtOrBelow(s, pat, |s| - |pat|)
  }

  /** `s.includes(pat)`. */
  predicate Contains(s: string, pat: string)
  {
    IndexOf(s, pat) != -1
  }

  /** `includes` holds exactly when the pattern occurs somewhere. */
  lemma ContainsIff(s: string, pat: string)
    ensures Contains(s, pat) <==> exists p :: OccursAt(s, pat, p)
  {
  }

  /** A one-character pattern occurs exactly when the character does. */
  lemma ContainsChar(s: string, c: char)
    ensures Contains(s, [c]) <==> c in s
  {
    if c in s {
      var p :| 0 <= p < |s| && s[p] == c;
      assert s[p..p + 1] == [c];
      assert OccursAt(s, [c], p);
    }
    if Contains(s, [c]) {
      var p := IndexOf(s, [c]);
      assert s[p..p + 1][0] == s[p];
    }
  }

  /** `parts.join(sep)`. */
  function Join(parts: seq<string>, sep: string): string
  {
    if |parts| == 0 then ""
    else if |parts| == 1 then parts[0]
    else parts[0] + sep + Join(parts[1..], sep)
  }

  /**
   * `s.split(sep)` for a non-empty separator: the pieces between the non-overlapping
   * occurrences of `sep`, found left to right. Joining them back gives `s`, and no piece
   * contains the separator.
   */
  function Split(s: string, sep: string): (parts: seq<string>)
    requires sep != []
    ensures |parts| >= 1
    ensures |parts| >= 2 <==> Contains(s, sep)
    decreases |s|
  {
    var i := IndexOf(s, sep);
    if i == -1 then [s] else [s[..i]] + Split(s[i + |sep|..], sep)
  }

  /** Joining the pieces of a split with the separator gives back the original text. */
  lemma {:induction false} JoinSplit(s: string, sep: string)
    requires sep != []
    ensures Join(Split(s, sep), sep) == s
    decreases |s|
  {
    var i := IndexOf(s, sep);
    if i != -1 {
      var rest := Split(s[i + |sep|..], sep);
      JoinSplit(s[i + |sep|..], sep);
      assert ([s[..i]] + rest)[1..] == rest;
    }
  }

  /** No piece of a split contains the separator. */
  lemma {:induction false} SplitPiecesFree(s: string, sep: string)
    requires sep != []
    ensures forall k :: 0 <= k < |Split(s, sep)| ==> !Contains(Split(s, sep)[k], sep)
    decreases |s|
  {
    var i := IndexOf(s, sep);
    if i != -1 {
      FirstPieceFree(s, sep, i);
      SplitPiecesFree(s[i + |sep|..], sep);
    }
  }

  /** The text before the first occurrence of `sep` does not contain `sep`. */
  lemma FirstPieceFree(s: string, sep: string, i: int)
    requires sep != [] && 0 <= i <= |s|
    requires forall p :: 0 <= p < i ==> !OccursAt(s, sep, p)
    ensures !Contains(s[..i], sep)
  {
    forall p | OccursAt(s[..i], sep, p)
      ensures false
    {
      assert s[..i][p..p + |sep|] == s[p..p + |sep|];
      assert OccursAt(s, sep, p);
    }
  }

  /** An occurrence inside the right operand of a concatenation is an occurrence in the whole. */
  lemma OccursAtShift(a: string, b: string, pat: string, p: int)
    requires 0 <= p
    ensures OccursAt(a + b, pat, |a| + p) <==> OccursAt(b, pat, p)
  {
    if 0 <= p && p + |pat| <= |b| {
      assert (a + b)[|a| + p..|a| + p + |pat|] == b[p..p + |pat|];
    }
  }

  /** An occurrence inside the left operand of a concatenation is an occurrence in the whole. */
  lemma OccursAtPrefix(a: string, b: string, pat: string, p: int)
    requires 0 <= p && p + |pat| <= |a|
    ensures OccursAt(a + b, pat, p) <==> OccursAt(a, pat, p)
  {
    assert (a + b)[p..p + |pat|] == a[p..p + |pat|];
  }

  /** No occurrence of `pat` starts in `[lo, hi)` when its `j`-th character is absent from the matching window. */
  lemma NoMatchByChar(s: string, pat: string, lo: int, hi: int, j: int)
    requires 0 <= j < |pat| && 0 <= lo <= hi && hi + j <= |s|
    requires pat[j] !in s[lo + j..hi + j]
    ensures forall p :: lo <= p < hi ==> !OccursAt(s, pat, p)
  {
    forall p | lo <= p < hi
      ensures !OccursAt(s, pat, p)
    {
      if p + |pat| <= |s| {
        assert s[p..p + |pat|][j] == s[lo + j..hi + j][p - lo];
      }
    }
  }

  /** The first occurrence is at `i` when it occurs there and nowhere before. */
  lemma IndexOfIs(s: string, pat: string, i: int)
    requires OccursAt(s, pat, i)
    requires forall p :: 0 <= p < i ==> !OccursAt(s, pat, p)
    ensures IndexOf(s, pat) == i
  {
  }

  /** A pattern that does not fit in `s` is not found. */
  lemma IndexOfNone(s: string, pat: string)
    requires forall p :: !OccursAt(s, pat, p)
    ensures IndexOf(s, pat) == -1 && !Contains(s, pat)
  {
  }

  /** `Split` of a string whose first separator is at `i`. */
  lemma SplitAt(s: string, sep: string, i: int)
    requires sep != []
    requires OccursAt(s, sep, i)
    requires forall p :: 0 <= p < i ==> !OccursAt(s, sep, p)
    ensures Split(s, sep) == [s[..i]] + Split(s[i + |sep|..], sep)
  {
    IndexOfIs(s, sep, i);
  }

  /** `Split` cuts first at the occurrence right after `a` when none starts inside `a`. */
  lemma SplitCut(a: string, sep: string, b: string)
    requires sep != []
    requires forall p :: 0 <= p < |a| ==> !OccursAt(a + sep + b, sep, p)
    ensures Split(a + sep + b, sep) == [a] + Split(b, sep)
  {
    var s := a + sep + b;
    assert s[|a|..|a| + |sep|] == sep;
    SplitAt(s, sep, |a|);
    assert s[..|a|] == a && s[|a| + |sep|..] == b;
  }

  /**
   * No occurrence of `sep` starts inside `pre` in `pre + sep + rest` when `pre` followed by all
   * but the last character of `sep` does not contain it.
   */
  lemma NoCutInside(pre: string, sep: string, rest: string)
    requires sep != []
    requires !Contains(pre + sep[..|sep| - 1], sep)
    ensures forall p :: 0 <= p < |pre| ==> !OccursAt(pre + sep + rest, sep, p)
  {
    var a := pre + sep[..|sep| - 1];
    var b := [sep[|sep| - 1]] + rest;
    assert pre + sep + rest == a + b;
    forall p | 0 <= p < |pre| && p + |sep| <= |a + b|
      ensures !OccursAt(a + b, sep, p)
    {
      OccursAtPrefix(a, b, sep, p);
    }
  }

  /**
   * `Split` cuts first right after `pre` when no occurrence of `sep` starts inside `pre`, that
   * is, when `pre` followed by all but the last character of `sep` does not contain it.
   */
  lemma SplitFirstAt(pre: string, sep: string, rest: string)
    requires sep != []
    requires !Contains(pre + sep[..|sep| - 1], sep)
    ensures Split(pre + sep + rest, sep) == [pre] + Split(rest, sep)
  {
    NoCutInside(pre, sep, rest);
    SplitCut(pre, sep, rest);
  }

  /** `Split` of a string that does not contain the separator. */
  lemma SplitNone(s: string, sep: string)
    requires sep != []
    requires !Contains(s, sep)
    ensures Split(s, sep) == [s]
  {
  }

  /** JavaScript's WhiteSpace and LineTerminator characters, which `trim` removes. */
  predicate IsWhiteSpace(c: char)
  {
    var n := c as int;
    n == 0x09 || n == 0x0A || n == 0x0B || n == 0x0C || n == 0x0D || n == 0x20 ||
    n == 0xA0 || n == 0x1680 || (0x2000 <= n <= 0x200A) || n == 0x2028 || n == 0x2029 ||
    n == 0x202F || n == 0x205F || n == 0x3000 || n == 0xFEFF
  }

  /** `s.trimStart()`: the suffix left after dropping leading white space. */
  function TrimStart(s: string): (r: string)
    ensures |r| <= |s|
    ensures r == [] || !IsWhiteSpace(r[0])
  {
    if s != [] && IsWhiteSpace(s[0]) then TrimStart(s[1..]) else s
  }

  /** What `trimStart` leaves is a suffix of `s`. */
  lemma {:induction false} TrimStartSuffix(s: string)
    ensures TrimStart(s) == s[|s| - |TrimStart(s)|..]
  {
    if s != [] && IsWhiteSpace(s[0]) {
      TrimStartSuffix(s[1..]);
    }
  }

  /** `s.trimEnd()`: the prefix left after dropping trailing white space. */
  function TrimEnd(s: string): (r: string)
    ensures |r| <= |s|
    ensures r == [] || !IsWhiteSpace(r[|r| - 1])
  {
    if s != [] && IsWhiteSpace(s[|s| - 1]) then TrimEnd(s[..|s| - 1]) else s
  }

  /** What `trimEnd` leaves is a prefix of `s`. */
  lemma {:induction false} TrimEndPrefix(s: string)
    ensures TrimEnd(s) == s[..|TrimEnd(s)|]
  {
    if s != [] && IsWhiteSpace(s[|s| - 1]) {
      TrimEndPrefix(s[..|s| - 1]);
    }
  }

  /** `s.trim()`: white space is dropped at both ends. */
  function Trim(s: string): (r: string)
    ensures |r| <= |s|
    ensures r == [] || (!IsWhiteSpace(r[0]) && !IsWhiteSpace(r[|r| - 1]))
  {
    TrimEndPrefix(TrimStart(s));
    TrimEnd(TrimStart(s))
  }

  /** Only white space is dropped by `trimStart`. */
  lemma {:induction false} TrimStartDropsSpace(s: string)
    ensures forall k :: 0 <= k < |s| - |TrimStart(s)| ==> IsWhiteSpace(s[k])
  {
    if s != [] && IsWhiteSpace(s[0]) {
      TrimStartDropsSpace(s[1..]);
    }
  }

  /** Only white space is dropped by `trimEnd`. */
  lemma {:induction false} TrimEndDropsSpace(s: string)
    ensures forall k :: |TrimEnd(s)| <= k < |s| ==> IsWhiteSpace(s[k])
  {
    if s != [] && IsWhiteSpace(s[|s| - 1]) {
      TrimEndDropsSpace(s[..|s| - 1]);
    }
  }

  /** The trimmed text is a piece of the original, so every character in it comes from `s`. */
  lemma TrimInfix(s: string)
    ensures exists a {:trigger s[a..]} :: 0 <= a && a + |Trim(s)| <= |s| && Trim(s) == s[a..a + |Trim(s)|]
    ensures forall c :: c in Trim(s) ==> c in s
  {
    var t := TrimStart(s);
    var a := |s| - |t|;
    TrimStartSuffix(s);
    TrimEndPrefix(t);
    assert Trim(s) == s[a..a + |Trim(s)|];
    assert s[a..] == t;
  }

  /** `trim` gives the empty string exactly when `s` is all white space. */
  lemma TrimEmptyIff(s: string)
    ensures Trim(s) == [] <==> forall k :: 0 <= k < |s| ==> IsWhiteSpace(s[k])
  {
    var t := TrimStart(s);
    TrimStartSuffix(s);
    TrimStartDropsSpace(s);
    TrimEndDropsSpace(t);
    assert forall k :: |s| - |t| <= k < |s| ==> s[k] == t[k - (|s| - |t|)];
  }

  /** Trimming text with no white space at either end leaves it unchanged. */
  lemma TrimNoop(s: string)
    requires s == [] || (!IsWhiteSpace(s[0]) && !IsWhiteSpace(s[|s| - 1]))
    ensures Trim(s) == s
  {
  }

  /** JavaScript clamps a `substring` argument into `[0, n]`. */
  function Clamp(x: int, n: nat): (r: nat)
    ensures r <= n
    ensures 0 <= x <= n ==> r == x
  {
    if x < 0 then 0 else if x > n then n else x
  }

  /**
   * `s.substring(start, end)`: both arguments are clamped into `[0, |s|]` and swapped when
   * the first is the larger, so it never throws.
   */
  function Substring(s: string, start: int, end: int): (r: string)
    ensures 0 <= start <= end <= |s| ==> r == s[start..end]
  {
    var a, b := Clamp(start, |s|), Clamp(end, |s|);
    if a <= b then s[a..b] else s[b..a]
  }

  /** `s.slice(0, n)` for `n >= 0`: the first `n` characters, or all of `s` when shorter. */
  function Take(s: string, n: nat): (r: string)
    ensures |r| == if n <= |s| then n else |s|
    ensures r == s[..|r|]
  {
    if n <= |s| then s[..n] else s
  }

  /**
   * `s.replace(/[cs]/g, rep)`: every character of `s` that belongs to `cs` is replaced by
   * `rep`; all other characters are kept, in order.
   */
  function ReplaceChars(s: string, cs: set<char>, rep: string): string
  {
    if s == [] then []
    else (if s[0] in cs then rep else [s[0]]) + ReplaceChars(s[1..], cs, rep)
  }

  /**
   * Every character of the result is a kept character of `s` or comes from `rep`, and every
   * character of `s` outside `cs` is kept.
   */
  lemma {:induction false} ReplaceCharsChars(s: string, cs: set<char>, rep: string)
    ensures forall c :: c in ReplaceChars(s, cs, rep) ==> (c in s && c !in cs) || c in rep
    ensures forall c :: c in s && c !in cs ==> c in ReplaceChars(s, cs, rep)
  {
    if s != [] {
      ReplaceCharsChars(s[1..], cs, rep);
      assert forall c :: c in s <==> c == s[0] || c in s[1..];
    }
  }

  /** Replacing distributes over concatenation. */
  lemma {:induction false} ReplaceCharsAppend(a: string, b: string, cs: set<char>, rep: string)
    ensures ReplaceChars(a + b, cs, rep) == ReplaceChars(a, cs, rep) + ReplaceChars(b, cs, rep)
  {
    if a != [] {
      assert (a + b)[0] == a[0] && (a + b)[1..] == a[1..] + b;
      ReplaceCharsAppend(a[1..], b, cs, rep);
      var h := if a[0] in cs then rep else [a[0]];
      calc {
        ReplaceChars(a + b, cs, rep);
        h + ReplaceChars(a[1..] + b, cs, rep);
        h + (ReplaceChars(a[1..], cs, rep) + ReplaceChars(b, cs, rep));
        (h + ReplaceChars(a[1..], cs, rep)) + ReplaceChars(b, cs, rep);
      }
    } else {
      assert a + b == b;
    }
  }

  /** Text none of whose characters is replaced comes out unchanged. */
  lemma {:induction false} ReplaceCharsNoop(s: string, cs: set<char>, rep: string)
    requires forall c :: c in s ==> c !in cs
    ensures ReplaceChars(s, cs, rep) == s
  {
    if s != [] {
      assert forall c :: c in s[1..] ==> c in s;
      ReplaceCharsNoop(s[1..], cs, rep);
    }
  }

  /** How many characters of `s` belong to `cs`. */
  function CountIn(s: string, cs: set<char>): (n: nat)
    ensures n <= |s|
  {
    if s == [] then 0 else (if s[0] in cs then 1 else 0) + CountIn(s[1..], cs)
  }

  predicate IsDigit(c: char)
  {
    '0' as int <= c as int <= '9' as int
  }

  predicate AllDigits(d: string)
  {
    forall k :: 0 <= k < |d| ==> IsDigit(d[k])
  }

  /** Replacing more characters changes nothing when the extra ones do not occur in `s`. */
  lemma {:induction false} ReplaceCharsWider(s: string, cs: set<char>, more: set<char>, rep: string)
    requires forall c :: c in s && c in more ==> c in cs
    ensures ReplaceChars(s, cs + more, rep) == ReplaceChars(s, cs, rep)
  {
    if s != [] {
      assert forall c :: c in s[1..] ==> c in s;
      ReplaceCharsWider(s[1..], cs, more, rep);
    }
  }

  /** Joining one more part appends the separator and the part. */
  lemma {:induction false} JoinSnoc(parts: seq<string>, x: string, sep: string)
    requires parts != []
    ensures Join(parts + [x], sep) == Join(parts, sep) + sep + x
    decreases |parts|
  {
    if |parts| == 1 {
      assert (parts + [x])[1..] == [x];
    } else {
      assert (parts + [x])[1..] == parts[1..] + [x];
      JoinSnoc(parts[1..], x, sep);
    }
  }

  /** Joining puts the first part first, followed by the separator when more parts follow. */
  lemma JoinCons(x: string, parts: seq<string>, sep: string)
    requires parts != []
    ensures Join([x] + parts, sep) == x + sep + Join(parts, sep)
  {
    assert ([x] + parts)[1..] == parts;
  }

  /** `s` starts with `p`. */
  predicate StartsWith(s: string, p: string)
  {
    |p| <= |s| && s[..|p|] == p
  }

  lemma StartsWithAppend(p: string, rest: string)
    ensures StartsWith(p + rest, p)
  {
    assert (p + rest)[..|p|] == p;
  }

  /** A pattern holding a character that `s` lacks does not occur in `s`. */
  lemma MissingChar(s: string, pat: string, c: char)
    requires c in pat && c !in s
    ensures !Contains(s, pat)
  {
    if Contains(s, pat) {
      var p := IndexOf(s, pat);
      assert false;
    }
  }

  /** A text that lacks `pat` lacks every extension of it. */
  lemma MissingPrefix(s: string, pat: string, more: string)
    requires !Contains(s, pat)
    ensures !Contains(s, pat + more)
  {
    if Contains(s, pat + more) {
      var p := IndexOf(s, pat + more);
      OccursPrefix(s, pat, more, p);
      assert false;
    }
  }

  /** An occurrence of `pat + more` starts with an occurrence of `pat`. */
  lemma OccursPrefix(s: string, pat: string, more: string, p: int)
    requires OccursAt(s, pat + more, p)
    ensures OccursAt(s, pat, p)
  {
    assert s[p..p + |pat|] == (pat + more)[..|pat|];
  }

  /**
   * No occurrence of `pat` starts inside `a` in `a + b` when `a` lacks it and the last character
   * of `a` is not in it, since such an occurrence would have to cover that character.
   */
  lemma NoEarlyMatch(a: string, b: string, pat: string)
    requires !Contains(a, pat)
    requires a == [] || a[|a| - 1] !in pat
    ensures forall p :: 0 <= p < |a| ==> !OccursAt(a + b, pat, p)
  {
    forall p | 0 <= p < |a|
      ensures !OccursAt(a + b, pat, p)
    {
      if OccursAt(a + b, pat, p) {
        if p + |pat| <= |a| {
          OccursAtPrefix(a, b, pat, p);
          assert false;
        } else {
          OccurrenceCovers(a + b, pat, p, |a| - 1);
        }
      }
    }
  }

  /** Every character an occurrence covers is a character of the pattern. */
  lemma OccurrenceCovers(s: string, pat: string, p: int, k: int)
    requires OccursAt(s, pat, p) && p <= k < p + |pat|
    ensures s[k] in pat
  {
    assert s[p..p + |pat|][k - p] == s[k];
  }

  /** Neither side holds `pat` and the boundary breaks every occurrence across it. */
  lemma JoinFree(a: string, b: string, pat: string)
    requires !Contains(a, pat) && !Contains(b, pat)
    requires (a != [] && a[|a| - 1] !in pat) || (b != [] && b[0] !in pat)
    ensures !Contains(a + b, pat)
  {
    if Contains(a + b, pat) {
      var p := IndexOf(a + b, pat);
      if p >= |a| {
        OccursAtShift(a, b, pat, p - |a|);
        assert false;
      } else if p + |pat| <= |a| {
        OccursAtPrefix(a, b, pat, p);
        assert false;
      } else if a != [] && a[|a| - 1] !in pat {
        OccurrenceCovers(a + b, pat, p, |a| - 1);
      } else {
        OccurrenceCovers(a + b, pat, p, |a|);
      }
    }
  }

  /** The first occurrence in `a + b` is at `|a|` when `b` starts with it and `a` breaks all earlier ones. */
  lemma IndexOfAfter(a: string, b: string, pat: string)
    requires OccursAt(b, pat, 0)
    requires forall p :: 0 <= p < |a| ==> !OccursAt(a + b, pat, p)
    ensures IndexOf(a + b, pat) == |a|
  {
    OccursAtShift(a, b, pat, 0);
    IndexOfIs(a + b, pat, |a|);
  }

  /** A text that ends with `pat` has its last occurrence there. */
  lemma LastIndexOfEnd(a: string, pat: string)
    ensures LastIndexOf(a + pat, pat) == |a|
  {
    assert (a + pat)[|a|..|a| + |pat|] == pat;
    assert OccursAt(a + pat, pat, |a|);
  }

  /** No piece of a split is longer than the text it came from. */
  lemma {:induction false} SplitPiecesShort(s: string, sep: string)
    requires sep != []
    ensures forall k :: 0 <= k < |Split(s, sep)| ==> |Split(s, sep)[k]| <= |s|
    decreases |s|
  {
    var i := IndexOf(s, sep);
    if i != -1 {
      SplitPiecesShort(s[i + |sep|..], sep);
    }
  }

  /** A text shorter than `pat` does not contain it. */
  lemma TooShort(s: string, pat: string)
    requires |s| < |pat|
    ensures !Contains(s, pat)
  {
  }

  /** A text with a single `c`, doubled nowhere, lacks `[c, c]`. */
  lemma SingleChar(a: string, c: char, b: string)
    requires c !in a && c !in b
    ensures !Contains(a + [c] + b, [c, c])
  {
    var s := a + [c] + b;
    if Contains(s, [c, c]) {
      var p := IndexOf(s, [c, c]);
      OccurrenceCovers(s, [c, c], p, p);
      OccurrenceCovers(s, [c, c], p, p + 1);
      assert false;
    }
  }
}
