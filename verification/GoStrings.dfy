/**
 The parts of Go's `strings` and `sort` packages the services rely on, over
 sequences of Unicode scalar values.

 Only two characters outside ASCII lower-case to an ASCII character (U+0130 and
 U+212A); every other one stays outside ASCII, where every identifier check of
 this system refuses it.
 */
module GoStrings {

  datatype Option<+T> = None | Some(value: T)

  datatype Result<+T, +E> = Ok(value: T) | Err(error: E)

  // ---------- white space and case ----------

  predicate IsSpace(c: char) {
    || '\t' <= c <= '\r'
    || c == ' '
    || c == '\U{0085}' || c == '\U{00A0}' || c == '\U{1680}'
    || '\U{2000}' <= c <= '\U{200A}'
    || c == '\U{2028}' || c == '\U{2029}' || c == '\U{202F}' || c == '\U{205F}' || c == '\U{3000}'
  }

  /** White space in ASCII: the six characters tab, line feed, vertical tab, form feed, carriage return and blank. */
  lemma AsciiSpaces(c: char)
    requires c < '\U{0080}'
    ensures IsSpace(c) <==> (c as int >= 9 && c as int <= 13) || c as int == 32
  {
  }

  function TrimLeft(s: string): string {
    if s != "" && IsSpace(s[0]) then TrimLeft(s[1..]) else s
  }

  function TrimRight(s: string): string {
    if s != "" && IsSpace(s[|s| - 1]) then TrimRight(s[..|s| - 1]) else s
  }

  function TrimSpace(s: string): string {
    TrimRight(TrimLeft(s))
  }

  predicate Trimmed(s: string) {
    s == "" || (!IsSpace(s[0]) && !IsSpace(s[|s| - 1]))
  }

  function Lower(c: char): char {
    if 'A' <= c <= 'Z' then (c as int + 32) as char
    else if c == '\U{0130}' then 'i'
    else if c == '\U{212A}' then 'k'
    else c
  }

  function ToLower(s: string): (r: string)
    ensures |r| == |s|
  {
    seq(|s|, i requires 0 <= i < |s| => Lower(s[i]))
  }

  function TrimPrefix(s: string, prefix: string): string {
    if prefix <= s then s[|prefix|..] else s
  }

  lemma {:induction false} TrimRightKeepsFront(s: string)
    ensures TrimRight(s) <= s
    ensures TrimRight(s) != "" ==> !IsSpace(TrimRight(s)[|TrimRight(s)| - 1])
  {
    if s != "" && IsSpace(s[|s| - 1]) {
      TrimRightKeepsFront(s[..|s| - 1]);
    }
  }

  lemma {:induction false} TrimLeftDropsSpace(s: string)
    ensures TrimLeft(s) != "" ==> !IsSpace(TrimLeft(s)[0])
  {
    if s != "" && IsSpace(s[0]) {
      TrimLeftDropsSpace(s[1..]);
    }
  }

  lemma TrimSpaceTrims(s: string)
    ensures Trimmed(TrimSpace(s))
    ensures Trimmed(s) ==> TrimSpace(s) == s
  {
    TrimLeftDropsSpace(s);
    TrimRightKeepsFront(TrimLeft(s));
  }

  /** The length of `s` in UTF-8, which is what Go's `len` counts. */
  function Utf8Len(s: string): nat {
    if s == "" then 0
    else (if s[0] < '\U{0080}' then 1 else if s[0] < '\U{0800}' then 2 else if s[0] < '\U{10000}' then 3 else 4)
         + Utf8Len(s[1..])
  }

  predicate AllSpace(s: string) {
    forall i | 0 <= i < |s| :: IsSpace(s[i])
  }

  lemma {:induction false} TrimLeftCuts(s: string)
    ensures |TrimLeft(s)| <= |s| && TrimLeft(s) == s[|s| - |TrimLeft(s)|..]
    ensures AllSpace(s[..|s| - |TrimLeft(s)|])
  {
    if s != "" && IsSpace(s[0]) {
      TrimLeftCuts(s[1..]);
      var n := |s| - |TrimLeft(s)|;
      assert s[..n] == [s[0]] + s[1..][..n - 1];
    }
  }

  lemma {:induction false} TrimRightCuts(s: string)
    ensures |TrimRight(s)| <= |s| && TrimRight(s) == s[..|TrimRight(s)|] && AllSpace(s[|TrimRight(s)|..])
  {
    if s != "" && IsSpace(s[|s| - 1]) {
      var front := s[..|s| - 1];
      TrimRightCuts(front);
      assert s[|TrimRight(s)|..] == front[|TrimRight(s)|..] + [s[|s| - 1]];
    }
  }

  /** Trimming cuts white space off both ends, all of it, and nothing else. */
  lemma TrimSpaceCuts(s: string) returns (before: string, after: string)
    ensures s == before + TrimSpace(s) + after && AllSpace(before) && AllSpace(after) && Trimmed(TrimSpace(s))
  {
    var left := TrimLeft(s);
    TrimLeftCuts(s);
    TrimRightCuts(left);
    TrimSpaceTrims(s);
    before, after := s[..|s| - |left|], left[|TrimRight(left)|..];
  }

  /** Case folding keeps the length and white space, and of ASCII changes just the capitals. */
  lemma ToLowerFolds(s: string)
    ensures |ToLower(s)| == |s|
    ensures forall i | 0 <= i < |s| && 'A' <= s[i] <= 'Z' ::
              ToLower(s)[i] as int == s[i] as int - 'A' as int + 'a' as int
    ensures forall i | 0 <= i < |s| && s[i] < '\U{0080}' && !('A' <= s[i] <= 'Z') :: ToLower(s)[i] == s[i]
    ensures forall i | 0 <= i < |s| :: IsSpace(ToLower(s)[i]) == IsSpace(s[i])
    ensures ToLower(ToLower(s)) == ToLower(s)
  {
  }

  /** UTF-8 takes one byte in ASCII, two below U+0800, three below U+10000 and four above, text after text. */
  lemma {:induction false} Utf8LenAdds(a: string, c: char, b: string)
    ensures var code := c as int;
            Utf8Len(a + [c] + b)
            == Utf8Len(a) + Utf8Len(b)
               + (if code <= 0x7F then 1 else if code <= 0x7FF then 2 else if code <= 0xFFFF then 3 else 4)
  {
    if a == "" {
      assert a + [c] + b == [c] + b && ([c] + b)[1..] == b;
    } else {
      Utf8LenAdds(a[1..], c, b);
      assert (a + [c] + b)[1..] == a[1..] + [c] + b;
    }
  }

  lemma {:induction false} AsciiUtf8Len(s: string)
    requires forall i | 0 <= i < |s| :: s[i] < '\U{0080}'
    ensures Utf8Len(s) == |s|
  {
    if s != "" { AsciiUtf8Len(s[1..]); }
  }

  // ---------- byte order, ORDER BY and sort.Strings ----------

  /** Strict code-point order; it agrees with the byte order of the UTF-8 encodings. */
  predicate Less(a: string, b: string) {
    b != "" && (a == "" || a[0] < b[0] || (a[0] == b[0] && Less(a[1..], b[1..])))
  }

  /** Where two strings first differ, or where one ends, decides: it is the lexicographic order. */
  lemma {:induction false} LessIsLexicographic(a: string, b: string, n: nat)
    requires n <= |a| && n <= |b| && a[..n] == b[..n]
    requires n < |a| && n < |b| ==> a[n] != b[n]
    ensures Less(a, b) <==> n < |b| && (n == |a| || a[n] < b[n])
    decreases n
  {
    if n > 0 {
      assert a[0] == a[..n][0] && b[0] == b[..n][0];
      assert a[1..][..n - 1] == a[..n][1..] && b[1..][..n - 1] == b[..n][1..];
      LessIsLexicographic(a[1..], b[1..], n - 1);
    }
  }

  lemma LessTrichotomy(a: string, b: string)
    ensures Less(a, b) || a == b || Less(b, a)
    ensures !(Less(a, b) && Less(b, a))
    ensures !Less(a, a)
  {
    if a != "" && b != "" && a[0] == b[0] {
      LessTrichotomy(a[1..], b[1..]);
      assert a == [a[0]] + a[1..] && b == [b[0]] + b[1..];
    }
    if a != "" {
      LessTrichotomy(a[1..], a[1..]);
    }
  }

  lemma {:induction false} LessTransitive(a: string, b: string, c: string)
    requires Less(a, b) && Less(b, c)
    ensures Less(a, c)
  {
    if a != "" && a[0] == b[0] && b[0] == c[0] {
      LessTransitive(a[1..], b[1..], c[1..]);
    }
  }

  predicate StrictlyIncreasing(s: seq<string>) {
    forall i, j | 0 <= i < j < |s| :: Less(s[i], s[j])
  }

  predicate IsLeast(x: string, s: set<string>) {
    x in s && forall y | y in s :: y == x || Less(x, y)
  }

  lemma {:induction false} LeastExists(s: set<string>) returns (x: string)
    requires s != {}
    ensures IsLeast(x, s)
  {
    var y :| y in s;
    if s == {y} {
      x := y;
    } else {
      var m := LeastExists(s - {y});
      LessTrichotomy(m, y);
      x := if Less(y, m) then y else m;
      if x == y {
        forall z | z in s && z != y ensures Less(y, z) {
          if z != m { LessTransitive(y, m, z); }
        }
      }
    }
  }

  lemma LeastUnique(s: set<string>, x: string, y: string)
    requires IsLeast(x, s) && IsLeast(y, s)
    ensures x == y
  {
    LessTrichotomy(x, y);
  }

  /** The rows of a column in ORDER BY order. */
  function OrderBy(s: set<string>): (r: seq<string>)
    ensures StrictlyIncreasing(r)
    ensures forall x :: x in r <==> x in s
  {
    if s == {} then []
    else
      LeastIsUnique(s);
      var x :| IsLeast(x, s);
      var rest := OrderBy(s - {x});
      assert forall i | 0 <= i < |rest| :: rest[i] in s - {x};
      [x] + rest
  }

  lemma LeastIsUnique(s: set<string>)
    requires s != {}
    ensures exists x :: IsLeast(x, s)
    ensures forall x, y :: IsLeast(x, s) && IsLeast(y, s) ==> x == y
  {
    var _ := LeastExists(s);
    forall x, y | IsLeast(x, s) && IsLeast(y, s) ensures x == y { LeastUnique(s, x, y); }
  }

  /** A strictly increasing list is determined by its elements. */
  lemma {:induction false} IncreasingListUnique(a: seq<string>, b: seq<string>)
    requires StrictlyIncreasing(a) && StrictlyIncreasing(b)
    requires forall x :: x in a <==> x in b
    ensures a == b
  {
    assert (a != [] ==> a[0] in b) && (b != [] ==> b[0] in a);
    if a != [] && b != [] {
      if a[0] != b[0] {
        LessTrichotomy(a[0], b[0]);
      }
      IncreasingListTail(a);
      IncreasingListTail(b);
      IncreasingListUnique(a[1..], b[1..]);
      assert a == [a[0]] + a[1..] && b == [b[0]] + b[1..];
    }
  }

  lemma IncreasingListTail(a: seq<string>)
    requires StrictlyIncreasing(a) && a != []
    ensures StrictlyIncreasing(a[1..])
    ensures forall x :: x in a[1..] <==> x in a && x != a[0]
  {
    forall x | x in a[1..] ensures x != a[0] {
      LessTrichotomy(a[0], a[0]);
    }
    assert a == [a[0]] + a[1..];
  }

  predicate Ascending(s: seq<string>) {
    forall i, j | 0 <= i < j < |s| :: !Less(s[j], s[i])
  }

  /** sort.Strings: insertion keeps the prefix ascending and loses nothing. */
  method SortStrings(s: seq<string>) returns (r: seq<string>)
    ensures Ascending(r) && multiset(r) == multiset(s)
  {
    r := [];
    for n := 0 to |s|
      invariant Ascending(r) && multiset(r) == multiset(s[..n])
    {
      var k := |r|;
      while k > 0 && Less(s[n], r[k - 1])
        invariant 0 <= k <= |r|
        invariant forall j | k <= j < |r| :: Less(s[n], r[j])
      {
        k := k - 1;
      }
      AscendingInsert(r, k, s[n]);
      assert r == r[..k] + r[k..];
      assert s[..n + 1] == s[..n] + [s[n]];
      r := r[..k] + [s[n]] + r[k..];
    }
    assert s[..|s|] == s;
  }

  lemma AscendingInsert(r: seq<string>, k: nat, x: string)
    requires Ascending(r) && k <= |r|
    requires forall j | k <= j < |r| :: Less(x, r[j])
    requires k > 0 ==> !Less(x, r[k - 1])
    ensures Ascending(r[..k] + [x] + r[k..])
  {
    forall j | 0 <= j < k ensures !Less(x, r[j]) {
      if Less(x, r[j]) && j != k - 1 {
        LessTrichotomy(r[j], r[k - 1]);
        if Less(r[j], r[k - 1]) { LessTransitive(x, r[j], r[k - 1]); }
      }
    }
    forall j | k <= j < |r| ensures !Less(r[j], x) {
      LessTrichotomy(x, r[j]);
    }
  }

  /** Sorting distinct strings lists them in ORDER BY order. */
  lemma SortedKeysAreOrdered(r: seq<string>, keys: set<string>)
    requires Ascending(r)
    requires forall x :: x in r <==> x in keys
    requires forall i, j | 0 <= i < j < |r| :: r[i] != r[j]
    ensures r == OrderBy(keys)
  {
    forall i, j | 0 <= i < j < |r| ensures Less(r[i], r[j]) {
      LessTrichotomy(r[i], r[j]);
    }
    IncreasingListUnique(r, OrderBy(keys));
  }
}
