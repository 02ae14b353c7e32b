/**
  DocumentTextExtractor: chooses the text extractor by MIME type and
  normalises the whitespace of the extracted text.

  The three regular-expression replacements of cleanText each collapse the
  runs of one character class, so they are modelled by one function,
  CollapseRuns, over a class, a minimum run length and a replacement.
 */
module DocumentTextExtractor {
  import opened Common

  // ---------------------------------------------------------------------
  // Runs of a character class

  /** Length of the run of class characters at the start of s. */
  function LeadRun(s: string, cls: set<char>): (n: nat)
    ensures n <= |s|
    ensures forall k :: 0 <= k < n ==> s[k] in cls
    ensures n < |s| ==> s[n] !in cls
  {
    if s != [] && s[0] in cls then 1 + LeadRun(s[1..], cls) else 0
  }

  /** No run of class characters in s is n or more characters long. */
  predicate NoLongRun(s: string, cls: set<char>, n: nat)
  {
    forall i :: 0 <= i < |s| ==> LeadRun(s[i..], cls) < n
  }

  /**
    s.replaceAll(X, repl) for a pattern X that matches a run of at least n
    characters of cls, greedily: every maximal run of n or more class
    characters becomes repl, and everything else is copied.
   */
  function CollapseRuns(s: string, cls: set<char>, n: nat, repl: string): (r: string)
    requires n >= 1
    ensures |repl| <= n ==> |r| <= |s|
    decreases |s|
  {
    if s == [] then []
    else
      var run := LeadRun(s, cls);
      if run >= n then repl + CollapseRuns(s[run..], cls, n, repl)
      else if run > 0 then s[..run] + CollapseRuns(s[run..], cls, n, repl)
      else [s[0]] + CollapseRuns(s[1..], cls, n, repl)
  }

  /** The run at the start of a + b is all of a when a is one run and b does not continue it. */
  lemma {:induction false} LeadRunConcat(a: string, b: string, cls: set<char>)
    requires forall k :: 0 <= k < |a| ==> a[k] in cls
    requires b == [] || b[0] !in cls
    ensures LeadRun(a + b, cls) == |a|
  {
    if a == [] {
      assert a + b == b;
    } else {
      assert (a + b)[0] == a[0] && (a + b)[1..] == a[1..] + b;
      LeadRunConcat(a[1..], b, cls);
    }
  }

  /** A suffix of a string without long runs has none either. */
  lemma NoLongRunSuffix(s: string, cls: set<char>, n: nat, k: nat)
    requires k <= |s| && NoLongRun(s, cls, n)
    ensures NoLongRun(s[k..], cls, n)
  {
    forall i | 0 <= i < |s[k..]|
      ensures LeadRun(s[k..][i..], cls) < n
    {
      assert s[k..][i..] == s[k + i..];
    }
  }

  /** The collapsed text starts with the first character when that character is not in the class. */
  lemma CollapseHead(s: string, cls: set<char>, n: nat, repl: string)
    requires n >= 1 && s != [] && s[0] !in cls
    ensures CollapseRuns(s, cls, n, repl) == [s[0]] + CollapseRuns(s[1..], cls, n, repl)
  {
  }

  /** Joining a run segment with text that does not continue it keeps every start position's run inside the segment. */
  lemma SegmentRuns(seg: string, rest: string, cls: set<char>, n: nat)
    requires forall k :: 0 <= k < |seg| ==> seg[k] in cls
    requires |seg| < n
    requires rest == [] || rest[0] !in cls
    requires NoLongRun(rest, cls, n)
    ensures NoLongRun(seg + rest, cls, n)
  {
    var t := seg + rest;
    forall i | 0 <= i < |t|
      ensures LeadRun(t[i..], cls) < n
    {
      if i < |seg| {
        assert t[i..] == seg[i..] + rest;
        LeadRunConcat(seg[i..], rest, cls);
      } else {
        assert t[i..] == rest[i - |seg|..];
      }
    }
  }

  /** The collapsed text is empty or starts with a class character exactly when the input does. */
  lemma CollapseStartsOutside(s: string, cls: set<char>, n: nat, repl: string)
    requires n >= 1 && (s == [] || s[0] !in cls)
    ensures var r := CollapseRuns(s, cls, n, repl); r == [] || r[0] !in cls
  {
  }

  /**
    When the replacement is a run shorter than n, the collapsed text has
    no run of n or more class characters.
   */
  lemma {:induction false} CollapseLeavesNoLongRun(s: string, cls: set<char>, n: nat, repl: string)
    requires n >= 1 && |repl| < n
    requires forall k :: 0 <= k < |repl| ==> repl[k] in cls
    ensures NoLongRun(CollapseRuns(s, cls, n, repl), cls, n)
    decreases |s|
  {
    if s != [] {
      var run := LeadRun(s, cls);
      if run > 0 {
        var rest := CollapseRuns(s[run..], cls, n, repl);
        CollapseLeavesNoLongRun(s[run..], cls, n, repl);
        CollapseStartsOutside(s[run..], cls, n, repl);
        if run >= n {
          SegmentRuns(repl, rest, cls, n);
        } else {
          SegmentRuns(s[..run], rest, cls, n);
        }
      } else {
        CollapseLeavesNoLongRun(s[1..], cls, n, repl);
        LeavesPlainStep(s, cls, n, repl);
      }
    }
  }

  /** The step of CollapseLeavesNoLongRun at a character outside the class. */
  lemma LeavesPlainStep(s: string, cls: set<char>, n: nat, repl: string)
    requires n >= 1 && s != [] && LeadRun(s, cls) == 0
    requires NoLongRun(CollapseRuns(s[1..], cls, n, repl), cls, n)
    ensures NoLongRun(CollapseRuns(s, cls, n, repl), cls, n)
  {
    var rest := CollapseRuns(s[1..], cls, n, repl);
    var r := [s[0]] + rest;
    assert CollapseRuns(s, cls, n, repl) == r;
    forall i | 0 <= i < |r|
      ensures LeadRun(r[i..], cls) < n
    {
      if i == 0 {
        assert r[0..] == r;
      } else {
        assert r[i..] == rest[i - 1..];
      }
    }
  }

  /**
    With n = 1 and a replacement free of class characters, the collapsed
    text has no class character at all.
   */
  lemma {:induction false} CollapseRemovesClass(s: string, cls: set<char>, repl: string)
    requires forall k :: 0 <= k < |repl| ==> repl[k] !in cls
    ensures NoLongRun(CollapseRuns(s, cls, 1, repl), cls, 1)
    decreases |s|
  {
    if s != [] {
      var run := LeadRun(s, cls);
      var r := CollapseRuns(s, cls, 1, repl);
      if run >= 1 {
        var rest := CollapseRuns(s[run..], cls, 1, repl);
        CollapseRemovesClass(s[run..], cls, repl);
        assert r == repl + rest;
        forall i | 0 <= i < |r|
          ensures LeadRun(r[i..], cls) < 1
        {
          if i < |repl| {
            assert r[i..][0] == repl[i];
          } else {
            assert r[i..] == rest[i - |repl|..];
          }
        }
      } else {
        var rest := CollapseRuns(s[1..], cls, 1, repl);
        CollapseRemovesClass(s[1..], cls, repl);
        assert r == [s[0]] + rest;
        forall i | 0 <= i < |r|
          ensures LeadRun(r[i..], cls) < 1
        {
          if i > 0 {
            assert r[i..] == rest[i - 1..];
          }
        }
      }
    }
  }

  /** A text with no long run is left unchanged. */
  lemma {:induction false} CollapseIdentity(s: string, cls: set<char>, n: nat, repl: string)
    requires n >= 1 && NoLongRun(s, cls, n)
    ensures CollapseRuns(s, cls, n, repl) == s
    decreases |s|
  {
    if s != [] {
      var run := LeadRun(s, cls);
      var k := if run > 0 then run else 1;
      NoLongRunSuffix(s, cls, n, k);
      CollapseIdentity(s[k..], cls, n, repl);
      IdentityStep(s, cls, n, repl);
    }
  }

  /** The step of CollapseIdentity: a short run or a single character is copied in front of the rest. */
  lemma IdentityStep(s: string, cls: set<char>, n: nat, repl: string)
    requires n >= 1 && s != [] && NoLongRun(s, cls, n)
    requires var run := LeadRun(s, cls); var k := if run > 0 then run else 1;
      CollapseRuns(s[k..], cls, n, repl) == s[k..]
    ensures CollapseRuns(s, cls, n, repl) == s
  {
    var run := LeadRun(s, cls);
    assert s[0..] == s;
    if run > 0 {
      assert s == s[..run] + s[run..];
    } else {
      assert s == [s[0]] + s[1..];
    }
  }

  /**
    Collapsing the runs of one class, into a nonempty run of that class,
    does not change the run of a disjoint class at the start.
   */
  lemma {:induction false} CollapseKeepsOtherLeadRun(s: string, cls: set<char>, n: nat, repl: string, other: set<char>)
    requires n >= 1 && |repl| >= 1 && cls !! other
    requires forall k :: 0 <= k < |repl| ==> repl[k] in cls
    ensures LeadRun(CollapseRuns(s, cls, n, repl), other) == LeadRun(s, other)
    decreases |s|
  {
    if s != [] {
      var run := LeadRun(s, cls);
      if run == 0 {
        CollapseKeepsOtherLeadRun(s[1..], cls, n, repl, other);
      } else {
        assert s[..run][0] == s[0];
      }
    }
  }

  /** Collapsing one class keeps a disjoint class free of long runs. */
  lemma {:induction false} CollapseKeepsOtherNoLongRun(s: string, cls: set<char>, n: nat, repl: string, other: set<char>, m: nat)
    requires n >= 1 && |repl| >= 1 && cls !! other
    requires forall k :: 0 <= k < |repl| ==> repl[k] in cls
    requires NoLongRun(s, other, m)
    ensures NoLongRun(CollapseRuns(s, cls, n, repl), other, m)
    decreases |s|
  {
    if s != [] {
      var run := LeadRun(s, cls);
      if run > 0 {
        NoLongRunSuffix(s, other, m, run);
        CollapseKeepsOtherNoLongRun(s[run..], cls, n, repl, other, m);
        KeepsOtherRunStep(s, cls, n, repl, other, m);
      } else {
        NoLongRunSuffix(s, other, m, 1);
        CollapseKeepsOtherNoLongRun(s[1..], cls, n, repl, other, m);
        KeepsOtherPlainStep(s, cls, n, repl, other, m);
      }
    }
  }

  /** The step of CollapseKeepsOtherNoLongRun at a run of the collapsed class. */
  lemma KeepsOtherRunStep(s: string, cls: set<char>, n: nat, repl: string, other: set<char>, m: nat)
    requires n >= 1 && |repl| >= 1 && cls !! other
    requires forall k :: 0 <= k < |repl| ==> repl[k] in cls
    requires s != [] && LeadRun(s, cls) > 0 && NoLongRun(s, other, m)
    requires NoLongRun(CollapseRuns(s[LeadRun(s, cls)..], cls, n, repl), other, m)
    ensures NoLongRun(CollapseRuns(s, cls, n, repl), other, m)
  {
    var run := LeadRun(s, cls);
    var r := CollapseRuns(s, cls, n, repl);
    var seg := if run >= n then repl else s[..run];
    var rest := CollapseRuns(s[run..], cls, n, repl);
    assert r == seg + rest;
    forall i | 0 <= i < |r|
      ensures LeadRun(r[i..], other) < m
    {
      if i < |seg| {
        assert r[i..][0] == seg[i];
        assert s[0..] == s;
      } else {
        assert r[i..] == rest[i - |seg|..];
      }
    }
  }

  /** The step of CollapseKeepsOtherNoLongRun at a character outside the collapsed class. */
  lemma KeepsOtherPlainStep(s: string, cls: set<char>, n: nat, repl: string, other: set<char>, m: nat)
    requires n >= 1 && |repl| >= 1 && cls !! other
    requires forall k :: 0 <= k < |repl| ==> repl[k] in cls
    requires s != [] && LeadRun(s, cls) == 0 && NoLongRun(s, other, m)
    requires NoLongRun(CollapseRuns(s[1..], cls, n, repl), other, m)
    ensures NoLongRun(CollapseRuns(s, cls, n, repl), other, m)
  {
    var r := CollapseRuns(s, cls, n, repl);
    var rest := CollapseRuns(s[1..], cls, n, repl);
    assert r == [s[0]] + rest;
    forall i | 0 <= i < |r|
      ensures LeadRun(r[i..], other) < m
    {
      if i == 0 {
        CollapseKeepsOtherLeadRun(s, cls, n, repl, other);
        assert s[0..] == s;
      } else {
        assert r[i..] == rest[i - 1..];
      }
    }
  }

  /** A run inside a slice is no longer than the run at the same place of the whole. */
  lemma {:induction false} LeadRunPrefix(s: string, j: nat, cls: set<char>)
    requires j <= |s|
    ensures LeadRun(s[..j], cls) <= LeadRun(s, cls)
    decreases j
  {
    if j > 0 && s[0] in cls {
      assert s[..j][1..] == s[1..][..j - 1];
      LeadRunPrefix(s[1..], j - 1, cls);
    }
  }

  /** Slicing keeps a string free of long runs. */
  lemma NoLongRunSlice(s: string, i: nat, j: nat, cls: set<char>, n: nat)
    requires i <= j <= |s| && NoLongRun(s, cls, n)
    ensures NoLongRun(s[i..j], cls, n)
  {
    forall k | 0 <= k < j - i
      ensures LeadRun(s[i..j][k..], cls) < n
    {
      SliceRunAt(s, i, j, k, cls);
      assert LeadRun(s[i + k..], cls) < n;
    }
  }

  /** The run at position k of a slice is no longer than the run at the same place of the whole. */
  lemma SliceRunAt(s: string, i: nat, j: nat, k: nat, cls: set<char>)
    requires i <= j <= |s| && k < j - i
    ensures LeadRun(s[i..j][k..], cls) <= LeadRun(s[i + k..], cls)
  {
    assert s[i..j][k..] == s[i + k..][..j - i - k];
    LeadRunPrefix(s[i + k..], j - i - k, cls);
  }

  /** A string without long runs has no n class characters in a row, stated position by position. */
  lemma NoLongRunAt(s: string, cls: set<char>, n: nat, i: nat)
    requires NoLongRun(s, cls, n) && i + n <= |s| && n >= 1
    ensures exists k :: i <= k < i + n && s[k] !in cls
  {
    var run := LeadRun(s[i..], cls);
    assert s[i..][run] == s[i + run];
  }

  // ---------------------------------------------------------------------
  // cleanText

  const TabOrReturn: set<char> := {'\t', '\r'}
  const Space: set<char> := {' '}
  const Newline: set<char> := {'\n'}

  /** cleanText(text); a null text gives the empty string. */
  function CleanText(text: Option<string>): (r: string)
    ensures text.None? ==> r == ""
    ensures text.Some? ==> |r| <= |text.value|
  {
    match text
    case None => ""
    case Some(t) =>
      var noTabs := CollapseRuns(t, TabOrReturn, 1, " ");
      var singleSpaces := CollapseRuns(noTabs, Space, 2, " ");
      var fewNewlines := CollapseRuns(singleSpaces, Newline, 3, "\n\n");
      Trim(fewNewlines)
  }

  /** The three run conditions every cleaned text meets. */
  predicate IsClean(s: string)
  {
    NoLongRun(s, TabOrReturn, 1) && NoLongRun(s, Space, 2) && NoLongRun(s, Newline, 3) && IsTrimmed(s)
  }

  lemma CleanTextIsClean(text: Option<string>)
    ensures IsClean(CleanText(text))
  {
    if text.Some? {
      var t := text.value;
      var a := CollapseRuns(t, TabOrReturn, 1, " ");
      var b := CollapseRuns(a, Space, 2, " ");
      var c := CollapseRuns(b, Newline, 3, "\n\n");
      CollapseRemovesClass(t, TabOrReturn, " ");
      CollapseKeepsOtherNoLongRun(a, Space, 2, " ", TabOrReturn, 1);
      CollapseLeavesNoLongRun(a, Space, 2, " ");
      CollapseKeepsOtherNoLongRun(b, Newline, 3, "\n\n", TabOrReturn, 1);
      CollapseKeepsOtherNoLongRun(b, Newline, 3, "\n\n", Space, 2);
      CollapseLeavesNoLongRun(b, Newline, 3, "\n\n");
      var i, j := TrimIsSlice(c);
      NoLongRunSlice(c, i, j, TabOrReturn, 1);
      NoLongRunSlice(c, i, j, Space, 2);
      NoLongRunSlice(c, i, j, Newline, 3);
      TrimIsTrimmed(c);
    }
  }

  /**
    The cleaned text holds no tab and no carriage return, no two spaces in
    a row, no three newlines in a row, and no leading or trailing
    whitespace.
   */
  lemma CleanTextProperties(text: Option<string>)
    ensures var r := CleanText(text);
      && (forall i :: 0 <= i < |r| ==> r[i] != '\t' && r[i] != '\r')
      && (forall i :: 0 <= i < |r| - 1 ==> !(r[i] == ' ' && r[i + 1] == ' '))
      && (forall i :: 0 <= i < |r| - 2 ==> !(r[i] == '\n' && r[i + 1] == '\n' && r[i + 2] == '\n'))
      && IsTrimmed(r)
  {
    var r := CleanText(text);
    CleanTextIsClean(text);
    forall i | 0 <= i < |r|
      ensures r[i] != '\t' && r[i] != '\r'
    {
      NoLongRunAt(r, TabOrReturn, 1, i);
    }
    forall i | 0 <= i < |r| - 1
      ensures !(r[i] == ' ' && r[i + 1] == ' ')
    {
      NoLongRunAt(r, Space, 2, i);
    }
    forall i | 0 <= i < |r| - 2
      ensures !(r[i] == '\n' && r[i + 1] == '\n' && r[i + 2] == '\n')
    {
      NoLongRunAt(r, Newline, 3, i);
    }
  }

  /** Cleaning is idempotent. */
  lemma CleanTextIdempotent(text: Option<string>)
    ensures CleanText(Some(CleanText(text))) == CleanText(text)
  {
    var c := CleanText(text);
    CleanTextIsClean(text);
    CollapseIdentity(c, TabOrReturn, 1, " ");
    CollapseIdentity(c, Space, 2, " ");
    CollapseIdentity(c, Newline, 3, "\n\n");
    TrimOfTrimmed(c);
  }

  // ---------------------------------------------------------------------
  // extractText

  const PdfMime: string := "application/pdf"
  const DocxMime: string := "application/vnd.openxmlformats-officedocument.wordprocessingml.document"
  const LegacyDocMime: string := "application/msword"

  /**
    extractText: the PDF and DOCX MIME types go to their extractors (each an
    outcome: the text, or the IOException it throws), every other type is
    refused; the extracted text comes back cleaned, and an extractor's
    exception passes through with its own message.
   */
  function ExtractText(fileBytes: Bytes, mimeType: string,
                       extractFromPdf: Bytes -> Result<string>,
                       extractFromDocx: Bytes -> Result<string>): (r: Result<string>)
    ensures r.Ok? ==> mimeType == PdfMime || mimeType == DocxMime
    ensures mimeType == PdfMime ==> r.Ok? == extractFromPdf(fileBytes).Ok?
    ensures mimeType == DocxMime ==> r.Ok? == extractFromDocx(fileBytes).Ok?
    ensures mimeType == LegacyDocMime ==> r == Err("Legacy DOC format not supported. Please use DOCX.")
    ensures mimeType !in {PdfMime, DocxMime, LegacyDocMime} ==> r == Err("Unsupported file type: " + mimeType)
    ensures r.Ok? ==> IsClean(r.value)
    ensures mimeType == PdfMime ==>
              r == (match extractFromPdf(fileBytes) case Ok(t) => Ok(CleanText(Some(t))) case Err(e) => Err(e))
    ensures mimeType == DocxMime ==>
              r == (match extractFromDocx(fileBytes) case Ok(t) => Ok(CleanText(Some(t))) case Err(e) => Err(e))
  {
    var extracted :=
      if mimeType == PdfMime then extractFromPdf(fileBytes)
      else if mimeType == DocxMime then extractFromDocx(fileBytes)
      else if mimeType == LegacyDocMime then Err("Legacy DOC format not supported. Please use DOCX.")
      else Err("Unsupported file type: " + mimeType);
    match extracted
    case Err(e) => Err(e)
    case Ok(text) =>
      CleanTextIsClean(Some(text));
      Ok(CleanText(Some(text)))
  }
}
