/**
  OpenRouterService.extractKeywords: the AI's free-text answer is cleaned
  of a "here are ...:" preamble, of markdown fences and of line breaks,
  split on commas, and each part is trimmed, lower-cased and kept only if
  it looks like a technical keyword.

  The HTTP call itself (callAi) is not modelled: its outcome is the
  `response` input, None standing for the null it returns when the call
  fails or the answer is empty.
 */
module OpenRouterService {
  import opened Common

  // ---------------------------------------------------------------------
  // replaceAll("(?i)here are.*:", "")

  /** The line terminators that `.` does not match. */
  predicate IsLineTerminator(c: char)
  {
    c == '\n' || c == '\r' || c == '\U{85}' || c == '\U{2028}' || c == '\U{2029}'
  }

  /** The first line terminator at or after i, or the end of s. */
  function LineEnd(s: string, i: nat): (e: nat)
    requires i <= |s|
    ensures i <= e <= |s|
    ensures forall k :: i <= k < e ==> !IsLineTerminator(s[k])
    ensures e < |s| ==> IsLineTerminator(s[e])
    decreases |s| - i
  {
    if i == |s| || IsLineTerminator(s[i]) then i else LineEnd(s, i + 1)
  }

  const Preamble: string := "here are"

  /** The pattern's literal part, matched ignoring the case of ASCII letters. */
  predicate StartsWithPreamble(s: string)
  {
    |s| >= |Preamble| && ToLower(s[..|Preamble|]) == Preamble
  }

  /**
    The length of the match of `(?i)here are.*:` at the start of s: the
    greedy `.*` stops at the line's end and backs off to its last colon.
   */
  function PreambleMatch(s: string): (r: Option<nat>)
    ensures r.Some? ==> StartsWithPreamble(s) && |Preamble| < r.value <= LineEnd(s, |Preamble|)
    ensures r.Some? ==> s[r.value - 1] == ':'
    ensures r.Some? ==> forall k :: r.value <= k < LineEnd(s, |Preamble|) ==> s[k] != ':'
    ensures r.None? && StartsWithPreamble(s) ==> forall k :: |Preamble| <= k < LineEnd(s, |Preamble|) ==> s[k] != ':'
  {
    if StartsWithPreamble(s) then
      var e := LineEnd(s, |Preamble|);
      var line := s[|Preamble|..e];
      var c := LastIndexOf(line, ':');
      if c >= 0 then
        assert forall k :: |Preamble| + c + 1 <= k < e ==> s[k] == line[k - |Preamble|];
        Some(|Preamble| + c + 1)
      else
        assert forall k :: |Preamble| <= k < e ==> s[k] == line[k - |Preamble|];
        None
    else None
  }

  /** Every match, found scanning left to right, removed. */
  function StripPreamble(s: string): (r: string)
    ensures |r| <= |s|
    decreases |s|
  {
    if s == [] then []
    else match PreambleMatch(s)
      case Some(n) => StripPreamble(s[n..])
      case None => [s[0]] + StripPreamble(s[1..])
  }

  /** Text without a colon holds no match and is left as it is. */
  lemma {:induction false} StripWithoutColon(s: string)
    requires ':' !in s
    ensures StripPreamble(s) == s
    decreases |s|
  {
    if s != [] {
      assert forall k :: 0 <= k < |s| ==> s[k] != ':';
      assert PreambleMatch(s).None?;
      StripWithoutColon(s[1..]);
      assert s == [s[0]] + s[1..];
    }
  }

  /**
    A leading preamble p, which starts with "here are" in any case and runs
    on one line up to a colon, is removed whole when the rest of its line
    holds no further colon.
   */
  lemma LeadingPreambleRemoved(p: string, t: string)
    requires StartsWithPreamble(p) && p[|p| - 1] == ':'
    requires forall k :: 0 <= k < |p| ==> !IsLineTerminator(p[k])
    requires forall k :: 0 <= k < LineEnd(t, 0) ==> t[k] != ':'
    ensures StripPreamble(p + t) == StripPreamble(t)
  {
    var s := p + t;
    assert s[..|Preamble|] == p[..|Preamble|];
    assert StartsWithPreamble(s);
    var e := LineEnd(s, |Preamble|);
    var et := LineEnd(t, 0);
    assert e == |p| + et by {
      assert forall k :: |Preamble| <= k < |p| ==> s[k] == p[k];
      assert forall k :: |p| <= k < |p| + et ==> s[k] == t[k - |p|];
      if |p| + et < |s| {
        assert s[|p| + et] == t[et];
      }
    }
    var m := PreambleMatch(s);
    assert ToLower(p[..|Preamble|])[|Preamble| - 1] == ToLowerChar(p[|Preamble| - 1]);
    assert |p| > |Preamble|;
    assert s[|p| - 1] == ':';
    assert forall k :: |p| <= k < |s| ==> s[k] == t[k - |p|];
    assert m.Some?;
    assert m.value == |p|;
    assert s[|p|..] == t;
  }

  // ---------------------------------------------------------------------
  // The clean-up chain and the split

  /** Strip the preamble, drop ``` fences, turn line feeds into commas. */
  function CleanResponse(response: string): (r: string)
    ensures '\n' !in r
    ensures |r| <= |response|
  {
    var unfenced := ReplaceAll(StripPreamble(response), "```", "");
    ReplaceAllRemoves(unfenced, '\n', ",");
    ReplaceAll(unfenced, "\n", ",")
  }

  /** cleanResponse.split(","). */
  function ResponseParts(response: string): seq<string>
  {
    JavaSplit(CleanResponse(response), ",")
  }

  /** part.trim().toLowerCase(). */
  function NormalizePart(part: string): (r: string)
    ensures IsTrimmed(r) && ToLower(r) == r
    ensures |r| <= |part|
  {
    var t := Trim(part);
    TrimIsTrimmed(part);
    TrimmedLower(t);
    var r := ToLower(t);
    assert ToLower(r) == r;
    r
  }

  /** matches("\\d+"): one or more ASCII digits and nothing else. */
  predicate IsAllDigits(s: string)
  {
    |s| > 0 && forall i :: 0 <= i < |s| ==> IsDigit(s[i])
  }

  const GenericWords: seq<string> := ["study", "method", "results", "approach", "paper", "data", "analysis",
                                      "experience", "project", "education", "work", "using", "used"]

  /** isGeneric. */
  predicate IsGeneric(word: string)
  {
    word in GenericWords
  }

  /** The validation a cleaned part must pass to be kept. */
  predicate IsAcceptable(clean: string)
  {
    |clean| >= 2 && !IsAllDigits(clean) && !IsGeneric(clean)
  }

  /** The kept keywords of the parts, in order, duplicates included. */
  function KeptKeywords(parts: seq<string>): (r: seq<string>)
    ensures |r| <= |parts|
    ensures forall k :: 0 <= k < |r| ==> IsAcceptable(r[k])
  {
    if parts == [] then []
    else
      var clean := NormalizePart(parts[|parts| - 1]);
      KeptKeywords(parts[..|parts| - 1]) + (if IsAcceptable(clean) then [clean] else [])
  }

  /** What extractKeywords returns for the AI's response. */
  function Keywords(response: Option<string>): (r: seq<string>)
    ensures response.None? ==> r == []
    ensures forall k :: 0 <= k < |r| ==> IsAcceptable(r[k])
  {
    match response
    case None => []
    case Some(r) => KeptKeywords(ResponseParts(r))
  }

  /** One more part appends its cleaned form exactly when that passes the validation. */
  lemma KeptKeywordsStep(parts: seq<string>, i: nat)
    requires i < |parts|
    ensures KeptKeywords(parts[..i + 1]) ==
              KeptKeywords(parts[..i]) + (if IsAcceptable(NormalizePart(parts[i])) then [NormalizePart(parts[i])] else [])
  {
    assert parts[..i + 1][..i] == parts[..i];
  }

  /** The loop of extractKeywords, appending each acceptable cleaned part. */
  method ExtractKeywords(response: Option<string>) returns (keywords: seq<string>)
    ensures keywords == Keywords(response)
    ensures response.None? ==> keywords == []
  {
    if response.None? {
      return [];
    }
    var parts := ResponseParts(response.value);
    keywords := [];
    var i := 0;
    while i < |parts|
      invariant 0 <= i <= |parts|
      invariant keywords == KeptKeywords(parts[..i])
    {
      var clean := NormalizePart(parts[i]);
      KeptKeywordsStep(parts, i);
      if |clean| >= 2 && !IsAllDigits(clean) && !IsGeneric(clean) {
        keywords := keywords + [clean];
      }
      i := i + 1;
    }
    assert parts[..i] == parts;
  }

  // ---------------------------------------------------------------------
  // Properties

  /** A keyword as extractKeywords hands it on. */
  predicate IsWellFormedKeyword(k: string)
  {
    && IsTrimmed(k)
    && ToLower(k) == k
    && IsAcceptable(k)
    && ',' !in k
    && '\n' !in k
  }

  lemma {:induction false} KeptKeywordsWellFormed(parts: seq<string>)
    requires forall i :: 0 <= i < |parts| ==> ',' !in parts[i] && '\n' !in parts[i]
    ensures forall i :: 0 <= i < |KeptKeywords(parts)| ==> IsWellFormedKeyword(KeptKeywords(parts)[i])
    decreases |parts|
  {
    if parts != [] {
      var last := parts[|parts| - 1];
      var t := Trim(last);
      var i, j := TrimIsSlice(last);
      TrimIsTrimmed(last);
      TrimmedLower(t);
      assert forall k :: 0 <= k < |t| ==> t[k] in last;
      KeptKeywordsWellFormed(parts[..|parts| - 1]);
    }
  }

  /** Every keyword returned is trimmed, lower case, acceptable, and free of separators. */
  lemma KeywordsWellFormed(response: Option<string>)
    ensures forall i :: 0 <= i < |Keywords(response)| ==> IsWellFormedKeyword(Keywords(response)[i])
  {
    if response.Some? {
      var c := CleanResponse(response.value);
      ReplaceAllRemoves(ReplaceAll(StripPreamble(response.value), "```", ""), '\n', ",");
      var ps := Pieces(c, ",");
      PiecesAvoidSeparator(c, ",", ',');
      var parts := ResponseParts(response.value);
      forall i | 0 <= i < |parts|
        ensures ',' !in parts[i] && '\n' !in parts[i]
      {
        if c != "" {
          assert parts[i] == ps[i];
          assert ps[i] in ps;
          forall k | 0 <= k < |ps[i]|
            ensures ps[i][k] != '\n'
          {
            PieceIsInfix(c, ",", i, k);
          }
        }
      }
      KeptKeywordsWellFormed(parts);
    }
  }

  /** Each character of a piece is a character of the split string. */
  lemma {:induction false} PieceIsInfix(s: string, sep: string, i: nat, k: nat)
    requires |sep| > 0 && i < |Pieces(s, sep)| && k < |Pieces(s, sep)[i]|
    ensures Pieces(s, sep)[i][k] in s
    decreases |s|
  {
    if |s| < |sep| {
    } else if s[..|sep|] == sep {
      if i > 0 {
        PieceIsInfix(s[|sep|..], sep, i - 1, k);
        assert forall x :: x in s[|sep|..] ==> x in s;
      }
    } else {
      var rest := Pieces(s[1..], sep);
      if i == 0 && k == 0 {
      } else if i == 0 {
        PieceIsInfix(s[1..], sep, 0, k - 1);
      } else {
        PieceIsInfix(s[1..], sep, i, k);
      }
    }
  }

  /** Trailing parts that are empty contribute nothing. */
  lemma {:induction false} KeptKeywordsIgnoresEmptyTail(parts: seq<string>, n: nat)
    requires n <= |parts|
    requires forall k :: n <= k < |parts| ==> parts[k] == ""
    ensures KeptKeywords(parts) == KeptKeywords(parts[..n])
    decreases |parts|
  {
    if |parts| > n {
      assert NormalizePart("") == "";
      KeptKeywordsIgnoresEmptyTail(parts[..|parts| - 1], n);
      assert parts[..|parts| - 1][..n] == parts[..n];
    } else {
      assert parts[..n] == parts;
    }
  }

  /** The trailing-empty rule of split changes nothing about the keywords. */
  lemma KeywordsOverPieces(response: string)
    ensures Keywords(Some(response)) == KeptKeywords(Pieces(CleanResponse(response), ","))
  {
    var c := CleanResponse(response);
    var ps := Pieces(c, ",");
    if c != "" {
      KeptKeywordsIgnoresEmptyTail(ps, |DropTrailingEmpty(ps)|);
    }
  }

  /** A separated list free of colons, backquotes and line feeds survives the clean-up unchanged. */
  lemma CleanPlainList(items: seq<string>)
    requires forall i :: 0 <= i < |items| ==> ',' !in items[i] && '\n' !in items[i] && ':' !in items[i] && '`' !in items[i]
    ensures CleanResponse(Join(items, ",")) == Join(items, ",")
  {
    var s := Join(items, ",");
    JoinAvoids(items, ",", ':');
    JoinAvoids(items, ",", '`');
    JoinAvoids(items, ",", '\n');
    StripWithoutColon(s);
    NotContainsWithoutFirst(s, "```");
    ReplaceAbsent(s, "```", "");
    NotContainsWithoutFirst(s, "\n");
    ReplaceAbsent(s, "\n", ",");
  }

  /**
    A plain comma-separated answer yields the acceptable normalised items
    in their order, duplicates kept.
   */
  lemma CommaListKeywords(items: seq<string>)
    requires |items| >= 1
    requires forall i :: 0 <= i < |items| ==> ',' !in items[i] && '\n' !in items[i] && ':' !in items[i] && '`' !in items[i]
    ensures Keywords(Some(Join(items, ","))) == KeptKeywords(items)
  {
    var s := Join(items, ",");
    CleanPlainList(items);
    PiecesOfJoin(items, ',');
    KeywordsOverPieces(s);
  }

  /** Line feeds separate keywords exactly as commas do. */
  lemma LineListKeywords(items: seq<string>)
    requires |items| >= 1
    requires forall i :: 0 <= i < |items| ==> ',' !in items[i] && '\n' !in items[i] && ':' !in items[i] && '`' !in items[i]
    ensures Keywords(Some(Join(items, "\n"))) == Keywords(Some(Join(items, ",")))
  {
    LineListCleans(items);
    CleanPlainList(items);
    assert ResponseParts(Join(items, "\n")) == ResponseParts(Join(items, ","));
  }

  /** The clean-up turns the line feeds of a plain list into commas. */
  lemma LineListCleans(items: seq<string>)
    requires |items| >= 1
    requires forall i :: 0 <= i < |items| ==> ',' !in items[i] && '\n' !in items[i] && ':' !in items[i] && '`' !in items[i]
    ensures CleanResponse(Join(items, "\n")) == Join(items, ",")
  {
    var s := Join(items, "\n");
    JoinAvoids(items, "\n", ':');
    JoinAvoids(items, "\n", '`');
    StripWithoutColon(s);
    NotContainsWithoutFirst(s, "```");
    ReplaceAbsent(s, "```", "");
    ReplaceIsSplitJoin(s, "\n", ",");
    PiecesOfJoin(items, '\n');
  }

  /** A character in neither the parts nor the separator is not in their join. */
  lemma {:induction false} JoinAvoids(parts: seq<string>, sep: string, c: char)
    requires c !in sep
    requires forall i :: 0 <= i < |parts| ==> c !in parts[i]
    ensures c !in Join(parts, sep)
    decreases |parts|
  {
    if |parts| > 1 {
      JoinAvoids(parts[1..], sep, c);
    }
  }
}
