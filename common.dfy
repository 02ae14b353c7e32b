/**
  Shared vocabulary of the model: optional values, results that stand for
  Java exceptions, and the handful of java.lang.String operations the
  services rely on (trim, toLowerCase, isBlank, contains, startsWith,
  replace, split on a literal separator, String.join).
 */
module Common {

  /** A nullable reference or an empty Optional. */
  datatype Option<T> = None | Some(value: T)

  /** A value, or the message of the exception thrown instead. */
  datatype Result<T> = Ok(value: T) | Err(message: string)

  /** A Java byte array. */
  newtype byte = x: int | 0 <= x < 256
  type Bytes = seq<byte>

  // ---------------------------------------------------------------------
  // Characters

  /** Character.toLowerCase restricted to ASCII letters. */
  function ToLowerChar(c: char): char
  {
    if 'A' <= c <= 'Z' then (c as int + 32) as char else c
  }

  /** String.toLowerCase, ASCII letters only. */
  function ToLower(s: string): (r: string)
    ensures |r| == |s|
    ensures forall i :: 0 <= i < |r| ==> !('A' <= r[i] <= 'Z')
    ensures forall i {:trigger r[i]} :: 0 <= i < |s| && !('A' <= s[i] <= 'Z') ==> r[i] == s[i]
  {
    seq(|s|, i requires 0 <= i < |s| => ToLowerChar(s[i]))
  }

  /** The characters String.trim removes: every code point up to U+0020. */
  predicate IsTrimmable(c: char)
  {
    c <= ' '
  }

  /** Character.isWhitespace, as used by String.isBlank. */
  predicate IsJavaWhitespace(c: char)
  {
    || c == ' ' || c == '\t' || c == '\n' || c == '\U{0B}' || c == '\U{0C}' || c == '\r'
    || ('\U{1C}' <= c <= '\U{1F}')
    || c == '\U{1680}' || ('\U{2000}' <= c <= '\U{2006}') || ('\U{2008}' <= c <= '\U{200A}')
    || c == '\U{2028}' || c == '\U{2029}' || c == '\U{205F}' || c == '\U{3000}'
  }

  /** The regular-expression class \s: space, \t, \n, \x0B, \f, \r. */
  predicate IsRegexSpace(c: char)
  {
    c == ' ' || c == '\t' || c == '\n' || c == '\U{0B}' || c == '\U{0C}' || c == '\r'
  }

  predicate IsDigit(c: char)
  {
    '0' <= c <= '9'
  }

  // ---------------------------------------------------------------------
  // Trimming and blankness

  /** Number of leading characters String.trim strips. */
  function TrimStart(s: string): (i: nat)
    ensures i <= |s|
    ensures forall k :: 0 <= k < i ==> IsTrimmable(s[k])
    ensures i < |s| ==> !IsTrimmable(s[i])
  {
    if |s| > 0 && IsTrimmable(s[0]) then 1 + TrimStart(s[1..]) else 0
  }

  /** Length of s once its trailing trimmable characters are stripped. */
  function TrimEnd(s: string): (j: nat)
    ensures j <= |s|
    ensures forall k :: j <= k < |s| ==> IsTrimmable(s[k])
    ensures j > 0 ==> !IsTrimmable(s[j - 1])
  {
    if |s| > 0 && IsTrimmable(s[|s| - 1]) then TrimEnd(s[..|s| - 1]) else |s|
  }

  /** String.trim: empty exactly when every character is trimmable. */
  function Trim(s: string): (r: string)
    ensures |r| <= |s|
    ensures |r| == 0 <==> forall k :: 0 <= k < |s| ==> IsTrimmable(s[k])
  {
    var i := TrimStart(s);
    var j := TrimEnd(s[i..]);
    assert j > 0 ==> !IsTrimmable(s[i + j - 1]);
    s[i..][..j]
  }

  /** The trimmed string is the slice of s between the stripped ends. */
  lemma TrimIsSlice(s: string) returns (i: nat, j: nat)
    ensures i <= j <= |s| && Trim(s) == s[i..j]
    ensures forall k :: 0 <= k < i ==> IsTrimmable(s[k])
    ensures forall k :: j <= k < |s| ==> IsTrimmable(s[k])
    ensures i < j ==> !IsTrimmable(s[i]) && !IsTrimmable(s[j - 1])
  {
    i := TrimStart(s);
    j := i + TrimEnd(s[i..]);
    assert forall k :: j <= k < |s| ==> s[k] == s[i..][k - i];
  }

  /** A trimmed string neither starts nor ends with a trimmable character. */
  predicate IsTrimmed(s: string)
  {
    |s| == 0 || (!IsTrimmable(s[0]) && !IsTrimmable(s[|s| - 1]))
  }

  lemma TrimIsTrimmed(s: string)
    ensures IsTrimmed(Trim(s))
  {
    var i, j := TrimIsSlice(s);
  }

  /** Trimming a trimmed string changes nothing. */
  lemma {:induction false} TrimOfTrimmed(s: string)
    requires IsTrimmed(s)
    ensures Trim(s) == s
  {
    var i, j := TrimIsSlice(s);
    if |s| > 0 {
      assert i == 0;
      assert j == |s|;
    }
  }

  /** Lower-casing changes no trimmable character and creates none. */
  lemma TrimmedLower(s: string)
    requires IsTrimmed(s)
    ensures IsTrimmed(ToLower(s))
  {
  }

  /** String.isBlank: empty or only whitespace. */
  predicate IsBlank(s: string)
  {
    forall i :: 0 <= i < |s| ==> IsJavaWhitespace(s[i])
  }

  // ---------------------------------------------------------------------
  // Searching

  predicate IsPrefix(p: string, s: string)
  {
    |p| <= |s| && s[..|p|] == p
  }

  /** String.contains. */
  predicate Contains(s: string, t: string)
    ensures Contains(s, t) ==> |t| <= |s|
    decreases |s|
  {
    IsPrefix(t, s) || (|s| > 0 && Contains(s[1..], t))
  }

  /** An occurrence of t at some position of s makes Contains hold. */
  lemma {:induction false} ContainsAt(s: string, t: string, k: nat)
    requires k + |t| <= |s| && s[k..k + |t|] == t
    ensures Contains(s, t)
    decreases k
  {
    if k > 0 {
      assert s[1..][k - 1..k - 1 + |t|] == s[k..k + |t|];
      ContainsAt(s[1..], t, k - 1);
    }
  }

  /** String.lastIndexOf(char): the last position holding c, or -1. */
  function LastIndexOf(s: string, c: char): (r: int)
    ensures -1 <= r < |s|
    ensures r >= 0 ==> s[r] == c
    ensures forall k :: r < k < |s| ==> s[k] != c
  {
    if |s| == 0 then -1
    else if s[|s| - 1] == c then |s| - 1
    else LastIndexOf(s[..|s| - 1], c)
  }

  // ---------------------------------------------------------------------
  // Splitting, joining and literal replacement

  /**
    The pieces of s between the non-overlapping occurrences of sep found
    scanning left to right; there is always at least one piece.
   */
  function Pieces(s: string, sep: string): (r: seq<string>)
    requires |sep| > 0
    ensures |r| >= 1
    decreases |s|
  {
    if |s| < |sep| then [s]
    else if s[..|sep|] == sep then [""] + Pieces(s[|sep|..], sep)
    else
      var rest := Pieces(s[1..], sep);
      [[s[0]] + rest[0]] + rest[1..]
  }

  /** String.join(sep, parts). */
  function Join(parts: seq<string>, sep: string): string
  {
    if |parts| == 0 then ""
    else if |parts| == 1 then parts[0]
    else parts[0] + sep + Join(parts[1..], sep)
  }

  lemma JoinConsHead(c: string, parts: seq<string>, sep: string)
    requires |parts| >= 1
    ensures Join([c + parts[0]] + parts[1..], sep) == c + Join(parts, sep)
  {
    var ps := [c + parts[0]] + parts[1..];
    if |parts| > 1 {
      assert ps[1..] == parts[1..];
    }
  }

  lemma JoinEmptyHead(parts: seq<string>, sep: string)
    requires |parts| >= 1
    ensures Join([""] + parts, sep) == sep + Join(parts, sep)
  {
    assert ([""] + parts)[1..] == parts;
  }

  /**
    String.replace(target, replacement): every non-overlapping occurrence of
    the target, found scanning left to right, is replaced.
   */
  function ReplaceAll(s: string, target: string, replacement: string): (r: string)
    requires |target| > 0
    ensures |replacement| <= |target| ==> |r| <= |s|
    ensures |replacement| >= |target| ==> |r| >= |s|
    decreases |s|
  {
    if |s| < |target| then s
    else if s[..|target|] == target then replacement + ReplaceAll(s[|target|..], target, replacement)
    else [s[0]] + ReplaceAll(s[1..], target, replacement)
  }

  /** Replacing is splitting around the occurrences and joining with the replacement. */
  lemma {:induction false} ReplaceIsSplitJoin(s: string, target: string, replacement: string)
    requires |target| > 0
    ensures ReplaceAll(s, target, replacement) == Join(Pieces(s, target), replacement)
    decreases |s|
  {
    if |s| < |target| {
    } else if s[..|target|] == target {
      var rest := s[|target|..];
      ReplaceIsSplitJoin(rest, target, replacement);
      var ps := Pieces(rest, target);
      assert Pieces(s, target) == [""] + ps;
      JoinEmptyHead(ps, replacement);
    } else {
      ReplaceIsSplitJoin(s[1..], target, replacement);
      JoinConsHead([s[0]], Pieces(s[1..], target), replacement);
    }
  }

  /** Joining the pieces back with the separator gives the original string. */
  lemma {:induction false} PiecesRoundTrip(s: string, sep: string)
    requires |sep| > 0
    ensures Join(Pieces(s, sep), sep) == s
    decreases |s|
  {
    if |s| < |sep| {
    } else if s[..|sep|] == sep {
      var rest := s[|sep|..];
      PiecesRoundTrip(rest, sep);
      var ps := Pieces(rest, sep);
      assert Pieces(s, sep) == [""] + ps;
      JoinEmptyHead(ps, sep);
      assert s == sep + rest;
    } else {
      PiecesRoundTrip(s[1..], sep);
      JoinConsHead([s[0]], Pieces(s[1..], sep), sep);
      assert s == [s[0]] + s[1..];
    }
  }

  /** Replacing a target with itself changes nothing. */
  lemma ReplaceWithItself(s: string, target: string)
    requires |target| > 0
    ensures ReplaceAll(s, target, target) == s
  {
    ReplaceIsSplitJoin(s, target, target);
    PiecesRoundTrip(s, target);
  }

  /** A string in which the target does not occur is left unchanged. */
  lemma {:induction false} ReplaceAbsent(s: string, target: string, replacement: string)
    requires |target| > 0 && !Contains(s, target)
    ensures ReplaceAll(s, target, replacement) == s
    decreases |s|
  {
    if |s| >= |target| {
      assert s[..|target|] != target;
      ReplaceAbsent(s[1..], target, replacement);
    }
  }

  /** A string lacking the first character of t does not contain t. */
  lemma {:induction false} NotContainsWithoutFirst(s: string, t: string)
    requires |t| > 0 && t[0] !in s
    ensures !Contains(s, t)
    decreases |s|
  {
    if |t| <= |s| {
      assert s[..|t|][0] == s[0];
    }
    if |s| > 0 {
      NotContainsWithoutFirst(s[1..], t);
    }
  }

  /** Replacing every c with a string free of c leaves no c behind. */
  lemma {:induction false} ReplaceAllRemoves(s: string, c: char, replacement: string)
    requires c !in replacement
    ensures c !in ReplaceAll(s, [c], replacement)
    decreases |s|
  {
    if |s| >= 1 {
      ReplaceAllRemoves(s[1..], c, replacement);
    }
  }

  /** A string free of the one-character separator is a single piece. */
  lemma {:induction false} PiecesWithoutSeparator(w: string, c: char)
    requires c !in w
    ensures Pieces(w, [c]) == [w]
    decreases |w|
  {
    if |w| >= 1 {
      PiecesWithoutSeparator(w[1..], c);
      assert w == [w[0]] + w[1..];
    }
  }

  /** The first piece ends at the first separator. */
  lemma {:induction false} PiecesAfterFirst(w: string, c: char, rest: string)
    requires c !in w
    ensures Pieces(w + [c] + rest, [c]) == [w] + Pieces(rest, [c])
    decreases |w|
  {
    var s := w + [c] + rest;
    if w == [] {
      assert s[..1] == [c] && s[1..] == rest;
    } else {
      assert s[0] == w[0] && w[0] != c;
      assert s[..1] != [c] by { assert s[..1][0] == s[0]; }
      assert s[1..] == w[1..] + [c] + rest;
      PiecesAfterFirst(w[1..], c, rest);
      assert [w[0]] + w[1..] == w;
    }
  }

  /** Splitting a join of separator-free parts gives the parts back. */
  lemma {:induction false} PiecesOfJoin(parts: seq<string>, c: char)
    requires |parts| >= 1
    requires forall i :: 0 <= i < |parts| ==> c !in parts[i]
    ensures Pieces(Join(parts, [c]), [c]) == parts
    decreases |parts|
  {
    if |parts| == 1 {
      PiecesWithoutSeparator(parts[0], c);
    } else {
      PiecesOfJoin(parts[1..], c);
      PiecesAfterFirst(parts[0], c, Join(parts[1..], [c]));
      assert parts == [parts[0]] + parts[1..];
    }
  }

  /** Drops the empty strings at the end, as String.split does. */
  function DropTrailingEmpty(parts: seq<string>): (r: seq<string>)
    ensures |r| <= |parts| && r == parts[..|r|]
    ensures |r| > 0 ==> r[|r| - 1] != ""
    ensures forall k :: |r| <= k < |parts| ==> parts[k] == ""
  {
    if |parts| == 0 then []
    else if parts[|parts| - 1] == "" then DropTrailingEmpty(parts[..|parts| - 1])
    else parts
  }

  /**
    String.split(regex) for a regex that matches one literal separator:
    the pieces with trailing empty strings removed, except that an empty
    input gives one empty string.
   */
  function JavaSplit(s: string, sep: string): (r: seq<string>)
    requires |sep| > 0
    ensures s == "" ==> r == [""]
    ensures s != "" ==> |r| <= |Pieces(s, sep)| && r == Pieces(s, sep)[..|r|] && (|r| > 0 ==> r[|r| - 1] != "")
    ensures s != "" ==> forall k :: |r| <= k < |Pieces(s, sep)| ==> Pieces(s, sep)[k] == ""
  {
    if s == "" then [""] else DropTrailingEmpty(Pieces(s, sep))
  }

  /** Every piece of Pieces(s, sep) is a contiguous part of s that holds no separator. */
  lemma {:induction false} PiecesAvoidSeparator(s: string, sep: string, c: char)
    requires sep == [c]
    ensures forall p :: p in Pieces(s, sep) ==> c !in p
    decreases |s|
  {
    if |s| >= 1 {
      PiecesAvoidSeparator(s[1..], sep, c);
    }
  }

  // ---------------------------------------------------------------------
  // Stream filtering and key uniqueness

  /** stream().filter(p).collect(toList()): the elements satisfying p, in order. */
  function Filter<T>(s: seq<T>, p: T -> bool): (r: seq<T>)
    ensures |r| <= |s|
    ensures forall i :: 0 <= i < |r| ==> r[i] in s && p(r[i])
    ensures forall i :: 0 <= i < |s| && p(s[i]) ==> s[i] in r
    ensures multiset(r) <= multiset(s)
  {
    if s == [] then []
    else
      assert s == [s[0]] + s[1..];
      if p(s[0]) then [s[0]] + Filter(s[1..], p) else Filter(s[1..], p)
  }

  /** A filter every element passes keeps the sequence whole. */
  lemma {:induction false} FilterKeepsAll<T>(s: seq<T>, p: T -> bool)
    requires forall i :: 0 <= i < |s| ==> p(s[i])
    ensures Filter(s, p) == s
  {
    if s != [] {
      FilterKeepsAll(s[1..], p);
    }
  }

  /** A filter no element passes leaves nothing. */
  lemma {:induction false} FilterNone<T>(s: seq<T>, p: T -> bool)
    requires forall i :: 0 <= i < |s| ==> !p(s[i])
    ensures Filter(s, p) == []
  {
    if s != [] {
      FilterNone(s[1..], p);
    }
  }

  /** Filtering distributes over concatenation. */
  lemma {:induction false} FilterConcat<T>(a: seq<T>, b: seq<T>, p: T -> bool)
    ensures Filter(a + b, p) == Filter(a, p) + Filter(b, p)
  {
    if a == [] {
      assert a + b == b;
    } else {
      assert (a + b)[0] == a[0] && (a + b)[1..] == a[1..] + b;
      FilterConcat(a[1..], b, p);
    }
  }

  /** No two positions of s hold elements with the same key. */
  predicate UniqueBy<T, K(==)>(s: seq<T>, key: T -> K)
  {
    forall i, j :: 0 <= i < |s| && 0 <= j < |s| && i != j ==> key(s[i]) != key(s[j])
  }

  /** Two positions holding the same element make it occur at least twice. */
  lemma {:induction false} RepeatCounts<T>(s: seq<T>, i: nat, j: nat)
    requires i < j < |s| && s[i] == s[j]
    ensures multiset(s)[s[i]] >= 2
  {
    assert s == [s[0]] + s[1..];
    if i == 0 {
      assert s[j] == s[1..][j - 1];
    } else {
      RepeatCounts(s[1..], i - 1, j - 1);
    }
  }

  /** A sequence without repeated keys holds each element at most once. */
  lemma {:induction false} UniqueCountsOne<T, K>(s: seq<T>, key: T -> K, x: T)
    requires UniqueBy(s, key)
    ensures multiset(s)[x] <= 1
  {
    if s != [] {
      assert s == [s[0]] + s[1..];
      assert UniqueBy(s[1..], key) by {
        forall i, j | 0 <= i < |s| - 1 && 0 <= j < |s| - 1 && i != j
          ensures key(s[1..][i]) != key(s[1..][j])
        {
          assert s[1..][i] == s[i + 1] && s[1..][j] == s[j + 1];
        }
      }
      UniqueCountsOne(s[1..], key, x);
    }
  }

  /** Taking a sub-multiset of a sequence with unique keys keeps the keys unique. */
  lemma UniqueBySubMultiset<T, K>(a: seq<T>, b: seq<T>, key: T -> K)
    requires multiset(a) <= multiset(b) && UniqueBy(b, key)
    ensures UniqueBy(a, key)
  {
    forall i, j | 0 <= i < |a| && 0 <= j < |a| && i != j
      ensures key(a[i]) != key(a[j])
    {
      if a[i] == a[j] {
        if i < j { RepeatCounts(a, i, j); } else { RepeatCounts(a, j, i); }
        UniqueCountsOne(b, key, a[i]);
      } else {
        assert a[i] in multiset(b) && a[j] in multiset(b);
        var p :| 0 <= p < |b| && b[p] == a[i];
        var q :| 0 <= q < |b| && b[q] == a[j];
      }
    }
  }

  /** A prefix of a sequence with unique keys has unique keys. */
  lemma UniqueByPrefix<T, K>(s: seq<T>, n: nat, key: T -> K)
    requires n <= |s| && UniqueBy(s, key)
    ensures UniqueBy(s[..n], key)
  {
    var p := s[..n];
    forall i, j | 0 <= i < |p| && 0 <= j < |p| && i != j
      ensures key(p[i]) != key(p[j])
    {
      assert p[i] == s[i] && p[j] == s[j];
    }
  }

  /** Keys of a sequence with unique keys are the keys of exactly one position. */
  lemma UniqueByMembers<T, K>(s: seq<T>, key: T -> K, x: T, y: T)
    requires UniqueBy(s, key) && x in s && y in s && key(x) == key(y)
    ensures x == y
  {
    var p :| 0 <= p < |s| && s[p] == x;
    var q :| 0 <= q < |s| && s[q] == y;
  }

  // ---------------------------------------------------------------------
  // Integer division

  /** A positive multiple of a positive number is at least that number. */
  lemma {:induction false} MulAtLeast(k: int, b: int)
    requires k >= 1 && b > 0
    ensures k * b >= b
    decreases k
  {
    if k > 1 {
      MulAtLeast(k - 1, b);
      assert k * b == (k - 1) * b + b;
    }
  }

  /** Quotient and remainder are the only pair writing a as q * b + m with 0 <= m < b. */
  lemma DivModUnique(a: int, b: int, q: int, m: int)
    requires b > 0 && a == q * b + m && 0 <= m < b
    ensures a / b == q && a % b == m
  {
    var q0, m0 := a / b, a % b;
    assert a == q0 * b + m0;
    if q0 > q {
      MulAtLeast(q0 - q, b);
    } else if q0 < q {
      MulAtLeast(q - q0, b);
    }
  }

  /** Counting one further: the remainder wraps to 0 exactly when the quotient steps. */
  lemma DivStep(n: int, b: int)
    requires b > 0 && n >= 0
    ensures (n + 1) % b == (if n % b + 1 == b then 0 else n % b + 1)
    ensures (n + 1) / b == (if n % b + 1 == b then n / b + 1 else n / b)
  {
    if n % b + 1 == b {
      DivModUnique(n + 1, b, n / b + 1, 0);
    } else {
      DivModUnique(n + 1, b, n / b, n % b + 1);
    }
  }

  /** The remainder by a negative divisor is the remainder by its magnitude. */
  lemma ModNegative(a: int, b: int)
    requires b < 0
    ensures a % b == a % -b
  {
    var q, m := a / b, a % b;
    assert a == q * b + m && 0 <= m < -b;
    assert a == (-q) * (-b) + m;
    DivModUnique(a, -b, -q, m);
  }
}
