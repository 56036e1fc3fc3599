/** The response classifier inside `main()` of pyc2bytecode.py: given the
    model's answer with its outer whitespace stripped, decide whether it is
    code and split it into the code part and the explanation part. */
module Classifier {
  import opened PyStr

  /** The opening marker of a fenced block tagged as Python. */
  const PythonFence: string := "```python"
  /** A bare fence: opens an untagged block, and closes every block. */
  const Fence: string := "```"

  /** The three variables `main()` sets up: `is_code`, `code_content` and
      `readme_content`. */
  datatype Classification = Classification(isCode: bool, code: string, readme: string)

  /** The answer begins the way a Python source file usually does. */
  predicate StartsWithKeyword(s: string) {
    StartsWith(s, "def ") || StartsWith(s, "class ") || StartsWith(s, "import ")
  }

  /** A fenced branch: take what follows the opening marker, split it at the
      last fence, and strip both halves; with no closing fence there is no
      explanation. */
  function SplitFenced(s: string, open: string): Classification
    requires |open| > 0 && StartsWith(s, open)
  {
    var parts := RSplitOnce(AfterPrefix(s, open), Fence);
    Classification(true, Strip(parts[0]), if |parts| > 1 then Strip(parts[1]) else "")
  }

  /** The if/elif chain as a value: the tagged fence is tried first, then the
      bare fence, then the keywords; anything else is explanation only. */
  function Classify(s: string): Classification {
    if StartsWith(s, PythonFence) then SplitFenced(s, PythonFence)
    else if StartsWith(s, Fence) then SplitFenced(s, Fence)
    else if StartsWithKeyword(s) then Classification(true, s, "")
    else Classification(false, "", "")
  }

  /** The same chain as the flag updates `main()` performs: start from
      "not code, nothing found" and overwrite the three variables in the
      branch that applies. */
  method ClassifyResponse(llmStripped: string) returns (isCode: bool, codeContent: string, readmeContent: string)
    ensures Classification(isCode, codeContent, readmeContent) == Classify(llmStripped)
  {
    isCode := false;
    codeContent := "";
    readmeContent := "";
    if StartsWith(llmStripped, PythonFence) {
      codeContent := Strip(RSplitOnce(AfterPrefix(llmStripped, PythonFence), Fence)[0]);
      isCode := true;
      var afterCode := RSplitOnce(AfterPrefix(llmStripped, PythonFence), Fence);
      if |afterCode| > 1 {
        readmeContent := Strip(afterCode[1]);
      }
    } else if StartsWith(llmStripped, Fence) {
      codeContent := Strip(RSplitOnce(AfterPrefix(llmStripped, Fence), Fence)[0]);
      isCode := true;
      var afterCode := RSplitOnce(AfterPrefix(llmStripped, Fence), Fence);
      if |afterCode| > 1 {
        readmeContent := Strip(afterCode[1]);
      }
    } else if StartsWith(llmStripped, "def ") || StartsWith(llmStripped, "class ") || StartsWith(llmStripped, "import ") {
      codeContent := llmStripped;
      isCode := true;
    }
  }

  /** What a fenced branch yields, stated through the last closing fence
      rather than through `rsplit`. */
  lemma FencedSplit(s: string, open: string)
    requires |open| > 0 && StartsWith(s, open)
    ensures var rest := s[|open|..]; var c := SplitFenced(s, open);
      c.isCode
      && (Absent(rest, Fence) ==> c.code == Strip(rest) && c.readme == "")
      && (forall i :: LastOccurrence(rest, Fence, i) ==>
            c.code == Strip(rest[..i]) && c.readme == Strip(rest[i + |Fence|..]))
  {
    var rest := s[|open|..];
    assert AfterPrefix(s, open) == rest;
    var parts := RSplitOnce(rest, Fence);
    if |parts| == 2 {
      forall i | LastOccurrence(rest, Fence, i)
        ensures i == |parts[0]|
      {
        assert OccursAt(rest, Fence, |parts[0]|);
      }
      assert rest[..|parts[0]|] == parts[0];
      assert rest[|parts[0]| + |Fence|..] == parts[1];
    }
  }

  /** An answer opening with "```python": the code is what lies between that
      marker and the last fence after it, the explanation what follows that
      fence, both stripped; with no closing fence the code runs to the end. */
  lemma PythonFenceBranch(s: string)
    requires StartsWith(s, PythonFence)
    ensures var rest := s[|PythonFence|..]; var c := Classify(s);
      c.isCode
      && (Absent(rest, Fence) ==> c.code == Strip(rest) && c.readme == "")
      && (forall i :: LastOccurrence(rest, Fence, i) ==>
            c.code == Strip(rest[..i]) && c.readme == Strip(rest[i + |Fence|..]))
  {
    FencedSplit(s, PythonFence);
  }

  /** An answer opening with a fence other than "```python": the same split
      after the three backticks alone, so a language tag such as "js" stays
      at the front of the code. */
  lemma BareFenceBranch(s: string)
    requires StartsWith(s, Fence) && !StartsWith(s, PythonFence)
    ensures var rest := s[|Fence|..]; var c := Classify(s);
      c.isCode
      && (Absent(rest, Fence) ==> c.code == Strip(rest) && c.readme == "")
      && (forall i :: LastOccurrence(rest, Fence, i) ==>
            c.code == Strip(rest[..i]) && c.readme == Strip(rest[i + |Fence|..]))
  {
    FencedSplit(s, Fence);
  }

  /** A bare fence followed by a body that does not begin with "python" is
      not taken for the tagged marker, whatever follows the body. */
  lemma NotTaggedFence(body: string, rest: string)
    requires !StartsWith(body, "python")
    ensures !StartsWith(Fence + body + Fence + rest, PythonFence)
  {
    var x := Fence + body + Fence + rest;
    if |x| >= 9 {
      if |body| >= 6 {
        assert x[3..9] == body[..6];
        assert x[..9][3..9] == x[3..9];
      } else {
        assert x[3 + |body|] == '`';
        assert x[..9][3 + |body|] == x[3 + |body|];
      }
    }
  }

  lemma ShiftOccurrence(x: string, a: int, m: string, j: int)
    requires 0 <= a <= j && OccursAt(x, m, j)
    ensures OccursAt(x[a..], m, j - a)
  {
    assert x[a..][j - a..j - a + |m|] == x[j..j + |m|];
  }

  /** A fence that starts inside the closing fence runs on into `tail`. */
  lemma StraddlingFence(body: string, tail: string, j: int)
    requires |body| < j < |body| + 3 && OccursAt(body + Fence + tail, Fence, j)
    ensures StartsWith(tail, "`")
  {
    var rest := body + Fence + tail;
    var b := |body|;
    assert rest[j..j + 3][b + 3 - j] == rest[b + 3];
    assert tail[..1] == [rest[b + 3]];
  }

  /** The last fence of `body + Fence + tail` is the one written between
      them, when `tail` has no fence and does not begin with a backtick. */
  lemma ClosingFenceIsLast(body: string, tail: string)
    requires Absent(tail, Fence) && !StartsWith(tail, "`")
    ensures LastOccurrence(body + Fence + tail, Fence, |body|)
  {
    var rest := body + Fence + tail;
    var b := |body|;
    assert rest[b..b + 3] == Fence;
    assert rest[b + 3..] == tail;
    forall j | OccursAt(rest, Fence, j)
      ensures j <= b
    {
      if j >= b + 3 {
        ShiftOccurrence(rest, b + 3, Fence, j);
        assert false;
      } else if j > b {
        StraddlingFence(body, tail, j);
        assert false;
      }
    }
  }

  /** Building a fenced answer from its parts and classifying it gives the
      parts back: `open`, a body, a closing fence not followed by another
      backtick, and a trailing explanation without any fence. */
  lemma FencedAnswer(open: string, body: string, tail: string)
    requires open == PythonFence || (open == Fence && !StartsWith(body, "python"))
    requires Absent(tail, Fence) && !StartsWith(tail, "`")
    ensures Classify(open + body + Fence + tail) == Classification(true, Strip(body), Strip(tail))
  {
    var s := open + body + Fence + tail;
    var rest := body + Fence + tail;
    assert s == open + rest;
    assert s[..|open|] == open && s[|open|..] == rest;
    if open == Fence {
      NotTaggedFence(body, tail);
    }
    ClosingFenceIsLast(body, tail);
    assert rest[..|body|] == body && rest[|body| + 3..] == tail;
    FencedSplit(s, open);
  }

  /** The answer counts as code exactly when it opens with a fence or with
      one of the keywords, and in the keyword case the whole answer is the
      code with no explanation. */
  lemma IsCodeIff(s: string)
    ensures Classify(s).isCode <==> StartsWith(s, Fence) || StartsWithKeyword(s)
    ensures !StartsWith(s, Fence) && StartsWithKeyword(s) ==>
              Classify(s) == Classification(true, s, "") && s != ""
    ensures !Classify(s).isCode ==> Classify(s) == Classification(false, "", "")
  {
    TaggedFenceIsFence(s);
  }

  /** Every answer that opens with "```python" also opens with a bare fence,
      which is why the tagged test must come first. */
  lemma TaggedFenceIsFence(s: string)
    ensures StartsWith(s, PythonFence) ==> StartsWith(s, Fence)
  {
    if StartsWith(s, PythonFence) {
      assert s[..3] == s[..9][..3] == PythonFence[..3] == Fence;
    }
  }

  /** In a fenced branch the explanation is stripped text after the last
      fence, so it holds no fence. */
  lemma FencedReadmeHasNoFence(s: string, open: string)
    requires |open| > 0 && StartsWith(s, open)
    ensures Absent(SplitFenced(s, open).readme, Fence)
  {
    var parts := RSplitOnce(AfterPrefix(s, open), Fence);
    if |parts| == 2 {
      RSplitTailAbsent(AfterPrefix(s, open), Fence);
      StripKeepsAbsent(parts[1], Fence);
    }
  }

  /** Both parts come out stripped, and the explanation never holds a fence:
      it is the stripped text after the LAST fence. Only a fenced answer has
      an explanation part. */
  lemma ClassificationShape(s: string)
    requires Stripped(s)
    ensures Stripped(Classify(s).code) && Stripped(Classify(s).readme)
    ensures Absent(Classify(s).readme, Fence)
    ensures Classify(s).readme != "" ==> StartsWith(s, Fence)
  {
    TaggedFenceIsFence(s);
    if StartsWith(s, PythonFence) {
      FencedReadmeHasNoFence(s, PythonFence);
    } else if StartsWith(s, Fence) {
      FencedReadmeHasNoFence(s, Fence);
    }
  }
}
