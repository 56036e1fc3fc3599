/** What `main()` of pyc2bytecode.py decides to do with its inputs: the path
    of the disassembly file, the prompt sent to the model, and which output
    files receive what content once the model has answered. File writes are
    returned as values, in the order `main()` performs them. */
module Pipeline {
  import opened PyStr
  import opened Classifier

  /** The three files `main()` can create next to the input. */
  datatype OutputFile = Disassembly | LlmCode | LlmReadme

  /** One file written with the given text, replacing what was there. */
  datatype Write = Write(file: OutputFile, content: string)

  /** The disassembly path: `rsplit('.', 1)[0]` of the input path, then ".bin". */
  function BinPath(pycPath: string): (r: string)
    ensures EndsWith(r, ".bin")
  {
    RSplitOnce(pycPath, ".")[0] + ".bin"
  }

  /** ".bin" replaces everything from the last dot of the path on; a path
      without a dot just gets ".bin" appended. */
  lemma BinPathReplacesLastDot(p: string)
    ensures Absent(p, ".") ==> BinPath(p) == p + ".bin"
    ensures forall i :: LastOccurrence(p, ".", i) ==> BinPath(p) == p[..i] + ".bin"
  {
    var parts := RSplitOnce(p, ".");
    if |parts| == 2 {
      forall i | LastOccurrence(p, ".", i)
        ensures BinPath(p) == p[..i] + ".bin"
      {
        assert OccursAt(p, ".", |parts[0]|);
        assert i == |parts[0]|;
        assert p[..i] == parts[0];
      }
    }
  }

  /** The last dot is searched in the whole path, not in the file name: an
      input without an extension inside a dotted directory puts the
      disassembly one level up, under the directory's own stem. */
  lemma BinPathUsesDirectoryDot()
    ensures BinPath("a.d/m") == "a.bin"
  {
    var p := "a.d/m";
    assert OccursAt(p, ".", 1);
    forall j | OccursAt(p, ".", j)
      ensures j <= 1
    {
      assert p[j..j + 1][0] == p[j];
    }
    BinPathReplacesLastDot(p);
    assert p[..1] == "a";
  }

  /** An input whose name already ends in ".bin" is its own disassembly
      path: the run overwrites the file it just read. */
  lemma BinPathOfBinInput(p: string)
    requires EndsWith(p, ".bin")
    ensures BinPath(p) == p
  {
    var q := p[..|p| - 4];
    assert p == q + ".bin";
    assert OccursAt(p, ".", |q|);
    forall j | |q| < j < |p|
      ensures p[j] != '.'
    {
      assert p[j] == ".bin"[j - |q|];
    }
    forall j | OccursAt(p, ".", j)
      ensures j <= |q|
    {
      assert p[j..j + 1][0] == p[j];
    }
    BinPathReplacesLastDot(p);
  }

  /** The fixed text that precedes the disassembly in the prompt: the two
      lines of the template. Each line is cut into two constants of short
      literals only so that the absence of "{" can be checked piece by piece;
      joined, they are the template text unchanged. */
  const PromptLine1Head: string :=
    "This is python " + "3.12 pyc byte " + "code , i want " + "you read all " + "byte code and "
  const PromptLine1Tail: string :=
    "decompile to " + "readable python " + "script that " + "close meaning " + "to assembly " + "pyc code\n"
  const PromptLine2Head: string :=
    "After " + "decompiling, " + "please explain " + "step by step " + "how you did it "
  const PromptLine2Tail: string :=
    "and highlight " + "key improvements " + "or important " + "points in the " + "decompiled " + "code.\n"
  const PromptPreamble: string :=
    PromptLine1Head + PromptLine1Tail + PromptLine2Head + PromptLine2Tail

  const Placeholder: string := "{Input}"

  /** The prompt template as written: the preamble, then the placeholder. */
  const PromptTemplate: string := PromptPreamble + Placeholder

  /** No "{" in the preamble, so the placeholder can only match at its end. */
  lemma PreambleHasNoBrace()
    ensures '{' !in PromptPreamble
  {
    Line1HeadHasNoBrace();
    Line1TailHasNoBrace();
    Line2HeadHasNoBrace();
    Line2TailHasNoBrace();
  }

  lemma Line1HeadHasNoBrace()
    ensures '{' !in PromptLine1Head
  {
    assert '{' !in "This is python ";
    assert '{' !in "3.12 pyc byte ";
    assert '{' !in "code , i want ";
    assert '{' !in "you read all ";
    assert '{' !in "byte code and ";
  }

  lemma Line1TailHasNoBrace()
    ensures '{' !in PromptLine1Tail
  {
    assert '{' !in "decompile to ";
    assert '{' !in "readable python ";
    assert '{' !in "script that ";
    assert '{' !in "close meaning ";
    assert '{' !in "to assembly ";
    assert '{' !in "pyc code\n";
  }

  lemma Line2HeadHasNoBrace()
    ensures '{' !in PromptLine2Head
  {
    assert '{' !in "After ";
    assert '{' !in "decompiling, ";
    assert '{' !in "please explain ";
    assert '{' !in "step by step ";
    assert '{' !in "how you did it ";
  }

  lemma Line2TailHasNoBrace()
    ensures '{' !in PromptLine2Tail
  {
    assert '{' !in "and highlight ";
    assert '{' !in "key improvements ";
    assert '{' !in "or important ";
    assert '{' !in "points in the ";
    assert '{' !in "decompiled ";
    assert '{' !in "code.\n";
  }

  /** `template.replace("{Input}", bin_content)`. */
  function BuildPrompt(binContent: string): string {
    ReplaceAll(PromptTemplate, Placeholder, binContent)
  }

  /** The prompt is the preamble followed by the disassembly verbatim, not
      truncated or escaped, so the disassembly can be read back from it. */
  lemma PromptEmbedsDisassembly(binContent: string)
    ensures BuildPrompt(binContent) == PromptPreamble + binContent
    ensures BuildPrompt(binContent)[|PromptPreamble|..] == binContent
  {
    PreambleHasNoBrace();
    forall k | 0 <= k < |PromptPreamble|
      ensures !OccursAt(PromptPreamble + Placeholder, Placeholder, k)
    {
      assert (PromptPreamble + Placeholder)[k] == PromptPreamble[k] != '{';
    }
    ReplaceAllAtEnd(PromptPreamble, Placeholder, binContent);
  }

  /** Lines 120-132 of `main()`: the writes that follow from a
      classification of the stripped answer. Code that is not empty goes to
      the code file, followed by the explanation when that is not empty
      either; an answer that is not code goes whole to the readme; code that
      came out empty writes nothing at all. */
  function Decide(c: Classification, stripped: string): seq<Write> {
    if c.isCode && c.code != "" then
      [Write(LlmCode, c.code)] + (if c.readme != "" then [Write(LlmReadme, c.readme)] else [])
    else if !c.isCode then
      [Write(LlmReadme, stripped)]
    else
      []
  }

  /** Lines 92-134 of `main()`: a missing or empty answer writes nothing;
      otherwise the answer is stripped, classified, and written out. */
  function LlmWrites(llmResult: Option<string>): seq<Write> {
    match llmResult
    case None => []
    case Some(text) =>
      if text == "" then [] else Decide(Classify(Strip(text)), Strip(text))
  }

  /** Everything written in one run: the disassembly first, whatever the
      model then answers, followed by the model's output files. */
  function RunWrites(disassembly: string, llmResult: Option<string>): seq<Write> {
    [Write(Disassembly, disassembly)] + LlmWrites(llmResult)
  }

  /** Where each output goes. `stem` is the input's directory joined with its
      file name without extension; the disassembly path is derived apart. */
  function PathOf(f: OutputFile, pycPath: string, stem: string): string {
    match f
    case Disassembly => BinPath(pycPath)
    case LlmCode => stem + "_LLM.py"
    case LlmReadme => stem + "_LLM_readme.md"
  }

  /** The two model outputs sit side by side under one stem and never
      overwrite each other. */
  lemma LlmPathsShareStem(pycPath: string, stem: string)
    ensures StartsWith(PathOf(LlmCode, pycPath, stem), stem)
    ensures StartsWith(PathOf(LlmReadme, pycPath, stem), stem)
    ensures PathOf(LlmCode, pycPath, stem) != PathOf(LlmReadme, pycPath, stem)
  {
    assert (stem + "_LLM.py")[..|stem|] == stem;
    assert (stem + "_LLM_readme.md")[..|stem|] == stem;
  }

  /** The disassembly file is written first and only once, whether the model
      answered, failed or answered nothing. */
  lemma DisassemblyAlwaysWritten(disassembly: string, llmResult: Option<string>)
    ensures |RunWrites(disassembly, llmResult)| >= 1
    ensures RunWrites(disassembly, llmResult)[0] == Write(Disassembly, disassembly)
    ensures forall k :: 1 <= k < |RunWrites(disassembly, llmResult)| ==>
              RunWrites(disassembly, llmResult)[k].file != Disassembly
  {
    LlmWritesShape(llmResult);
  }

  /** No answer, or an empty one, produces no model output file. */
  lemma NoAnswerNoFiles(disassembly: string, llmResult: Option<string>)
    requires llmResult == None || llmResult == Some("")
    ensures LlmWrites(llmResult) == []
    ensures RunWrites(disassembly, llmResult) == [Write(Disassembly, disassembly)]
  {
  }

  /** At most the code file and then the readme, each once; the code file
      gets non-empty stripped text, and a readme written next to it gets the
      non-empty stripped text after the last fence, which holds no fence. */
  ghost predicate WellFormedWrites(ws: seq<Write>) {
    |ws| <= 2
    && (forall k :: 0 <= k < |ws| ==> ws[k].file != Disassembly)
    && (|ws| == 2 ==> ws[0].file == LlmCode && ws[1].file == LlmReadme)
    && (forall k :: 0 <= k < |ws| && ws[k].file == LlmCode ==>
          k == 0 && ws[k].content != "" && Stripped(ws[k].content))
    && (forall k :: 0 <= k < |ws| && ws[k].file == LlmReadme ==> Stripped(ws[k].content))
    && (|ws| == 2 ==> ws[1].content != "" && Absent(ws[1].content, Fence))
  }

  /** Whatever the model answers, the writes it causes are well formed. */
  lemma LlmWritesShape(llmResult: Option<string>)
    ensures WellFormedWrites(LlmWrites(llmResult))
  {
    if llmResult.Some? && llmResult.value != "" {
      var s := Strip(llmResult.value);
      ClassificationShape(s);
      DecideShape(Classify(s), s);
      assert LlmWrites(llmResult) == Decide(Classify(s), s);
    } else {
      assert LlmWrites(llmResult) == [];
    }
  }

  lemma DecideShape(c: Classification, s: string)
    requires Stripped(c.code) && Stripped(c.readme) && Stripped(s) && Absent(c.readme, Fence)
    ensures WellFormedWrites(Decide(c, s))
  {
  }

  /** The code file is written exactly when the stripped answer opens with a
      fence or a keyword and the code part is not empty, and it is then the
      first write, with the code part as its text, followed by the readme with
      the explanation exactly when that is not empty; the readme alone, with
      the whole stripped answer, is written exactly when the answer opens with
      neither. */
  lemma CodeFileIff(text: string)
    requires text != ""
    ensures var s := Strip(text); var ws := LlmWrites(Some(text));
      ((exists k :: 0 <= k < |ws| && ws[k].file == LlmCode) <==>
         (StartsWith(s, Fence) || StartsWithKeyword(s)) && Classify(s).code != "")
      && (!(StartsWith(s, Fence) || StartsWithKeyword(s)) <==> ws == [Write(LlmReadme, s)])
    ensures var s := Strip(text); var ws := LlmWrites(Some(text)); var c := Classify(s);
      (StartsWith(s, Fence) || StartsWithKeyword(s)) && c.code != "" ==>
        ws == [Write(LlmCode, c.code)] + (if c.readme != "" then [Write(LlmReadme, c.readme)] else [])
  {
    var s := Strip(text);
    IsCodeIff(s);
    var c := Classify(s);
    var ws := LlmWrites(Some(text));
    assert ws == Decide(c, s);
    if c.isCode && c.code != "" {
      assert ws[0].file == LlmCode;
    }
  }

  /** An answer that opens with neither a fence nor a keyword goes, stripped
      and otherwise unchanged, to the readme, and no code file is written. */
  lemma FallbackWritesWholeAnswer(text: string)
    requires text != ""
    requires !StartsWith(Strip(text), Fence) && !StartsWithKeyword(Strip(text))
    ensures LlmWrites(Some(text)) == [Write(LlmReadme, Strip(text))]
  {
    IsCodeIff(Strip(text));
  }

  /** A fenced answer whose code part strips to nothing writes no file at all,
      not even its explanation. */
  lemma EmptyCodeWritesNothing(text: string)
    requires text != "" && StartsWith(Strip(text), Fence) && Classify(Strip(text)).code == ""
    ensures LlmWrites(Some(text)) == []
  {
    IsCodeIff(Strip(text));
  }

  /** A tagged fence closed at once writes nothing. */
  lemma EmptyTaggedBlockWritesNothing()
    ensures LlmWrites(Some("```python```")) == []
  {
    var t := "```python```";
    EmptyTaggedBlockClassified();
    StripStripped(t);
    EmptyCodeWritesNothing(t);
  }

  lemma EmptyTaggedBlockClassified()
    ensures Classify("```python```") == Classification(true, "", "")
  {
    assert "```python```" == PythonFence + "" + Fence + "";
    StripStripped("");
    FencedAnswer(PythonFence, "", "");
  }

  /** A lone fence writes nothing. */
  lemma LoneFenceWritesNothing()
    ensures LlmWrites(Some("```")) == []
  {
    var f := "```";
    StripStripped(f);
    StripStripped("");
    assert f[|Fence|..] == "";
    assert Absent("", Fence);
    BareFenceBranch(f);
    EmptyCodeWritesNothing(f);
  }

  /** When the answer has already been stripped, as the HTTP helper does
      before returning it, every file written gets non-empty text. */
  lemma StrippedAnswerWritesNonEmpty(text: string)
    requires text != "" && Stripped(text)
    ensures forall k :: 0 <= k < |LlmWrites(Some(text))| ==> LlmWrites(Some(text))[k].content != ""
  {
    StripStripped(text);
    assert LlmWrites(Some(text)) == Decide(Classify(text), text);
    DecideWritesNonEmpty(Classify(text), text);
  }

  /** Lines 120-132 never write empty text when the stripped answer is not
      empty: code and explanation are tested first, the fallback writes the
      answer itself. */
  lemma DecideWritesNonEmpty(c: Classification, stripped: string)
    requires stripped != ""
    ensures forall k :: 0 <= k < |Decide(c, stripped)| ==> Decide(c, stripped)[k].content != ""
  {
  }

  /** An answer made only of whitespace passes the emptiness test but strips
      to nothing, and then an empty readme is written. */
  lemma BlankAnswerWritesEmptyReadme(text: string)
    requires text != "" && AllSpace(text)
    ensures LlmWrites(Some(text)) == [Write(LlmReadme, "")]
  {
    BlankStripsToEmpty(text);
    assert Classify("") == Classification(false, "", "");
  }

  lemma BlankStripsToEmpty(text: string)
    requires AllSpace(text)
    ensures Strip(text) == ""
  {
    assert "" + "" + text == text;
    StripOf("", "", text);
  }

  /** A tagged block on its own lines followed by an explanation: the code
      file gets the block without the fences, the readme the explanation. */
  lemma TaggedBlockThenProse(code: string, readme: string)
    requires code != "" && Stripped(code)
    requires readme != "" && Stripped(readme) && Absent(readme, Fence)
    ensures LlmWrites(Some(PythonFence + ("\n" + code + "\n") + Fence + ("\n" + readme)))
         == [Write(LlmCode, code), Write(LlmReadme, readme)]
  {
    var text := PythonFence + ("\n" + code + "\n") + Fence + ("\n" + readme);
    TaggedBlockClassified(code, readme);
    TaggedBlockStripped(code, readme);
    StripStripped(text);
  }

  lemma TaggedBlockStripped(code: string, readme: string)
    requires readme != "" && Stripped(readme)
    ensures Stripped(PythonFence + ("\n" + code + "\n") + Fence + ("\n" + readme))
  {
    var text := PythonFence + ("\n" + code + "\n") + Fence + ("\n" + readme);
    assert text[0] == '`';
    assert text[|text| - 1] == readme[|readme| - 1];
  }

  lemma TaggedBlockClassified(code: string, readme: string)
    requires Stripped(code) && Stripped(readme) && Absent(readme, Fence)
    ensures Classify(PythonFence + ("\n" + code + "\n") + Fence + ("\n" + readme))
         == Classification(true, code, readme)
  {
    AfterNewlineNoFence(readme);
    NewlinesStripped(code, readme);
    FencedAnswer(PythonFence, "\n" + code + "\n", "\n" + readme);
  }

  /** Newlines around stripped text are removed by `strip()`. */
  lemma NewlinesStripped(code: string, readme: string)
    requires Stripped(code) && Stripped(readme)
    ensures Strip("\n" + code + "\n") == code && Strip("\n" + readme) == readme
  {
    StripOf("\n", code, "\n");
    assert "\n" + readme == "\n" + readme + "";
    StripOf("\n", readme, "");
  }

  /** A newline in front of fence-free text adds no fence and no backtick. */
  lemma AfterNewlineNoFence(t: string)
    requires Absent(t, Fence)
    ensures Absent("\n" + t, Fence) && !StartsWith("\n" + t, "`")
  {
    var u := "\n" + t;
    assert u[1..] == t;
    forall k
      ensures !OccursAt(u, Fence, k)
    {
      if OccursAt(u, Fence, k) && k >= 1 {
        ShiftOccurrence(u, 1, Fence, k);
      } else if k == 0 && |u| >= 3 {
        assert u[..3][0] == '\n';
      }
    }
    assert u[..1] != "`" by { assert u[..1][0] == '\n'; }
  }

  /** Text without a backtick holds no fence. */
  lemma NoBacktickNoFence(t: string)
    requires '`' !in t
    ensures Absent(t, Fence) && !StartsWith(t, "`")
  {
    forall k
      ensures !OccursAt(t, Fence, k)
    {
      if 0 <= k && k + 3 <= |t| {
        assert t[k..k + 3][0] == t[k];
      }
    }
    if |t| >= 1 {
      assert t[..1][0] == t[0];
    }
  }

  /** A bare fence with a language tag other than "python": the tag stays at
      the front of the code. */
  lemma OtherTagStaysInCode()
    ensures LlmWrites(Some("```js\nrun()```")) == [Write(LlmCode, "js\nrun()")]
  {
    var text := "```js\nrun()```";
    OtherTagClassified();
    StripStripped(text);
    assert LlmWrites(Some(text)) == Decide(Classify(text), text);
  }

  lemma OtherTagClassified()
    ensures Classify("```js\nrun()```") == Classification(true, "js\nrun()", "")
  {
    var body := "js\nrun()";
    assert "```js\nrun()```" == Fence + body + Fence + "";
    TagBodyFacts();
    StripStripped("");
    NoBacktickNoFence("");
    FencedAnswer(Fence, body, "");
  }

  lemma TagBodyFacts()
    ensures !StartsWith("js\nrun()", "python")
    ensures Strip("js\nrun()") == "js\nrun()"
  {
    assert "js\nrun()"[..6][0] != "python"[0];
    StripStripped("js\nrun()");
  }
}
