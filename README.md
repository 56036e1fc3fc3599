# pyc2bytecode: the decision logic of `main()`, modelled in Dafny

`pyc2bytecode.py` disassembles a Python 3.12 `.pyc` file. It writes the
disassembly to the input path with everything from its last `.` replaced
by `.bin`, or with `.bin` appended when the path has no dot. That is usually
next to the input. The script's opening comment promises the input's
directory, but the last dot is looked for in the whole path, not just the
file name. So "a.d/m" gives "a.bin", one directory up
(`Pipeline.BinPathUsesDirectoryDot`). An input already named `*.bin` is
overwritten by its own disassembly (`Pipeline.BinPathOfBinInput`).

The script then sends the disassembly, inside a fixed prompt, to a language
model. Depending on the shape of the answer it writes:

- a code file (`<stem>_LLM.py`);
- an explanation file (`<stem>_LLM_readme.md`);
- both, or neither.

This project models the deterministic parts of that run and proves what
they do:

- **`PyStr`** (`pystr.dfy`): the Python string operations the script calls.
  - `strip()`, with Python's own whitespace set (`str.isspace`).
  - `startswith`.
  - `split(sep, 1)` and `rsplit(sep, 1)`, with the leftmost and
    rightmost searches they rest on (`IndexOf`, `LastIndexOf`).
  - `replace`.
  - `endswith` is defined only to state the `.bin` property.
- **`Classifier`** (`classifier.dfy`): the if/elif chain that sorts the
  stripped answer into is-code / code / explanation, at lines 99-118.
  - `Classify` is the chain as a value.
  - `ClassifyResponse` is the chain as the flag updates the code performs.
- **`Pipeline`** (`pipeline.dfy`):
  - the `.bin` path (line 77);
  - the prompt (lines 85-89);
  - the write decision (lines 92-134).
  Writes are returned as an ordered sequence of `Write(file, content)`
  values, in the order `main()` performs them.

One might expect any language tag after the opening fence to be dropped.
The code drops only `python`: a block opened as "```js" keeps `js` as the
first line of the code (`Classifier.BareFenceBranch`,
`Pipeline.OtherTagStaysInCode`).

## Model

| member | source | states |
|---|---|---|
| PyStr.IsSpace | pyc2bytecode.py:102 | Python's `str.isspace` character set, which `strip()` removes; the contracts about it are on `Strip`, `TrimStart`, `TrimEnd` and `StripOf` |
| PyStr.StartsWith | pyc2bytecode.py:103-116 | `startswith`: the input begins with the given prefix; `TaggedFenceIsFence`, `IsCodeIff` and `AfterPrefix` state what follows from it |
| PyStr.ReplaceAll | pyc2bytecode.py:89 | `replace`, scanned left to right, replacement not rescanned; its contract is `ReplaceAllAtEnd` |
| PyStr.Strip | pyc2bytecode.py:102 | `strip()` returns text with no whitespace at either end, no longer than its input |
| PyStr.StripSlice | pyc2bytecode.py:102 | the result of `strip()` is a slice of the input with only whitespace before and after it |
| PyStr.StripOf | pyc2bytecode.py:102 | any text without whitespace at its ends, padded with whitespace on both sides, strips back to exactly that text |
| PyStr.StripIdempotent | pyc2bytecode.py:102 | stripping twice equals stripping once |
| PyStr.TrimStart | pyc2bytecode.py:102 | removes a leading run of whitespace only, leaving a suffix that does not start with whitespace |
| PyStr.TrimEnd | pyc2bytecode.py:102 | removes a trailing run of whitespace only, leaving a prefix that does not end with whitespace |
| PyStr.StripKeepsAbsent | pyc2bytecode.py:109 | stripping text that has no occurrence of a marker cannot create one |
| PyStr.IndexOf | pyc2bytecode.py:104 | the leftmost occurrence of the separator, or none when it does not occur |
| PyStr.LastIndexOf | pyc2bytecode.py:104 | the rightmost occurrence of the separator, or none when it does not occur |
| PyStr.SplitOnce | pyc2bytecode.py:104 | `split(sep, 1)`: one part equal to the input when `sep` is absent, otherwise the text before and after the FIRST `sep`, which rejoin to the input |
| PyStr.RSplitOnce | pyc2bytecode.py:77 | `rsplit(sep, 1)`: one part equal to the input when `sep` is absent, otherwise the text before and after the LAST `sep`, which rejoin to the input |
| PyStr.RSplitTailAbsent | pyc2bytecode.py:107 | the part after the last separator contains no separator |
| PyStr.AfterPrefix | pyc2bytecode.py:104 | on text that starts with the marker, `split(marker, 1)[1]` is exactly what follows the marker |
| PyStr.ReplaceAllAtEnd | pyc2bytecode.py:85-89 | when the pattern appears only at the very end, `replace` substitutes that one occurrence and leaves the rest unchanged |
| Classifier.Classify | pyc2bytecode.py:99-118 | the if/elif chain as a value; its contracts are `IsCodeIff`, `PythonFenceBranch`, `BareFenceBranch`, `FencedAnswer` and `ClassificationShape` |
| Classifier.SplitFenced | pyc2bytecode.py:104-115 | the body shared by both fenced branches; its contracts are `FencedSplit` and `FencedReadmeHasNoFence` |
| Classifier.ClassifyResponse | pyc2bytecode.py:99-118 | the flag updates of the if/elif chain compute the same is-code flag, code and explanation as `Classify` |
| Classifier.FencedSplit | pyc2bytecode.py:104-115 | a fenced branch is code; with no closing fence the code is the stripped rest and there is no explanation; otherwise code and explanation are the stripped text before and after the last fence |
| Classifier.PythonFenceBranch | pyc2bytecode.py:103-109 | an answer opening with "```python" is split after that marker, at its last fence |
| Classifier.BareFenceBranch | pyc2bytecode.py:110-115 | an answer opening with a fence but not "```python" is split after the three backticks only, so any other language tag stays in the code |
| Classifier.FencedAnswer | pyc2bytecode.py:103-115 | an answer built from an opening marker, a body, a closing fence and a fence-free tail classifies as code = stripped body, explanation = stripped tail |
| Classifier.TaggedFenceIsFence | pyc2bytecode.py:103-110 | every answer opening with "```python" also opens with "```", so the tagged test must come first |
| Classifier.IsCodeIff | pyc2bytecode.py:99-118 | the answer counts as code exactly when it opens with a fence or with "def ", "class " or "import "; after a keyword the whole answer is the code with no explanation; otherwise all three variables keep their initial values |
| Classifier.FencedReadmeHasNoFence | pyc2bytecode.py:107-115 | the explanation of a fenced branch never contains a fence |
| Classifier.ClassificationShape | pyc2bytecode.py:99-118 | code and explanation both come out stripped; the explanation has no fence; only a fenced answer has an explanation |
| Pipeline.BuildPrompt | pyc2bytecode.py:85-89 | the prompt template with the placeholder replaced; its contract is `PromptEmbedsDisassembly` |
| Pipeline.Decide | pyc2bytecode.py:120-132 | the writes that follow from a classification; its contracts are `DecideShape`, `DecideWritesNonEmpty`, `LlmWritesShape`, `CodeFileIff` and `EmptyCodeWritesNothing` |
| Pipeline.LlmWrites | pyc2bytecode.py:92-134 | the model output writes for one answer; its contracts are `NoAnswerNoFiles`, `LlmWritesShape`, `CodeFileIff`, `FallbackWritesWholeAnswer` and the example lemmas below |
| Pipeline.RunWrites | pyc2bytecode.py:77-92 | every write of one run, the disassembly first; its contracts are `DisassemblyAlwaysWritten` and `NoAnswerNoFiles` |
| Pipeline.PathOf | pyc2bytecode.py:96-98 | where each output goes; its contract is `LlmPathsShareStem` |
| Pipeline.BinPath | pyc2bytecode.py:77 | the disassembly path always ends in ".bin" |
| Pipeline.BinPathReplacesLastDot | pyc2bytecode.py:77 | a path without a dot gets ".bin" appended; otherwise everything from the last dot on is replaced by ".bin" |
| Pipeline.BinPathOfBinInput | pyc2bytecode.py:68-78 | an input path ending in ".bin" is its own disassembly path, so line 78 overwrites the file read at lines 68-69 |
| Pipeline.BinPathUsesDirectoryDot | pyc2bytecode.py:77 | the last dot is looked for in the whole path: "a.d/m" becomes "a.bin" |
| Pipeline.PreambleHasNoBrace | pyc2bytecode.py:86-87 | the fixed prompt text contains no "{" |
| Pipeline.PromptEmbedsDisassembly | pyc2bytecode.py:85-89 | the prompt is the fixed two-line preamble followed by the disassembly verbatim, which can be read back from the prompt |
| Pipeline.LlmPathsShareStem | pyc2bytecode.py:96-98 | the code and explanation files share one stem and are different paths |
| Pipeline.DisassemblyAlwaysWritten | pyc2bytecode.py:77-78 | the disassembly is written first and only once, whatever the model answers |
| Pipeline.NoAnswerNoFiles | pyc2bytecode.py:92 | a missing (`None`) or empty answer writes no model output file, so a run writes only the disassembly |
| Pipeline.LlmWritesShape | pyc2bytecode.py:120-132 | at most the code file and then the explanation, each once; the code is non-empty and stripped; an explanation written next to code is non-empty, stripped and fence-free |
| Pipeline.DecideShape | pyc2bytecode.py:120-132 | from a stripped classification with a fence-free explanation, the writes of lines 120-132 are well formed in the sense above |
| Pipeline.CodeFileIff | pyc2bytecode.py:116-132 | the code file is written exactly when the stripped answer opens with a fence or keyword and the code part is non-empty; it then gets the code part, followed by the readme with the explanation exactly when that is non-empty; the whole stripped answer alone goes to the readme exactly when it opens with neither |
| Pipeline.FallbackWritesWholeAnswer | pyc2bytecode.py:129-131 | an answer with neither a fence nor a keyword goes, stripped, to the readme and nowhere else |
| Pipeline.EmptyCodeWritesNothing | pyc2bytecode.py:120-129 | a fenced answer whose code strips to nothing writes no file, not even its explanation |
| Pipeline.EmptyTaggedBlockWritesNothing | pyc2bytecode.py:103-129 | "```python```" writes nothing |
| Pipeline.EmptyTaggedBlockClassified | pyc2bytecode.py:103-109 | "```python```" classifies as code with empty code and no explanation |
| Pipeline.LoneFenceWritesNothing | pyc2bytecode.py:110-129 | a lone "```" writes nothing |
| Pipeline.StrippedAnswerWritesNonEmpty | pyc2bytecode.py:120-132 | for an answer that is already stripped and non-empty, every file written gets non-empty text |
| Pipeline.DecideWritesNonEmpty | pyc2bytecode.py:120-132 | when the stripped answer is non-empty, lines 120-132 never write empty text |
| Pipeline.BlankAnswerWritesEmptyReadme | pyc2bytecode.py:92-131 | a non-empty answer made only of whitespace passes the emptiness test, strips to nothing, and writes an empty readme |
| Pipeline.BlankStripsToEmpty | pyc2bytecode.py:102 | text made only of whitespace strips to the empty string |
| Pipeline.TaggedBlockThenProse | pyc2bytecode.py:103-128 | a "```python" block on its own lines, followed by an explanation, writes the code without its fences and then the explanation |
| Pipeline.TaggedBlockClassified | pyc2bytecode.py:103-109 | that answer classifies as code = the block's contents, explanation = the text after the closing fence |
| Pipeline.NewlinesStripped | pyc2bytecode.py:104-109 | the newlines around the block and before the explanation are removed by `strip()` |
| Pipeline.AfterNewlineNoFence | pyc2bytecode.py:107-109 | a newline in front of fence-free text adds no fence and no leading backtick |
| Pipeline.NoBacktickNoFence | pyc2bytecode.py:107-115 | text without any backtick holds no fence and does not start with a backtick |
| Pipeline.OtherTagStaysInCode | pyc2bytecode.py:110-122 | "```js\nrun()```" writes the code file with "js\nrun()": the tag is kept |
| Pipeline.OtherTagClassified | pyc2bytecode.py:110-115 | that answer classifies as code "js\nrun()" without an explanation |

## Left out

- Reading the `.pyc`, dropping its 16-byte header, `marshal.loads` and `dis.dis` (lines 68-74, 54-61): the disassembly is a text parameter of `RunWrites`.
- Writing the `.bin` and reading it back (lines 78, 82-83): the content read back is taken to equal the disassembly written, and is the parameter of `BuildPrompt`.
- `call_openrouter_llm` (lines 27-52): the HTTP request, its timeout, the API key and the response parsing. Its result is an `Option<string>` parameter. Because the helper strips the answer at line 48, `BlankAnswerWritesEmptyReadme` shows a case that cannot arise in a real run.
- Exceptions out of `call_openrouter_llm`: a timeout or connection error (lines 43-45), an empty `choices` list (`[0]` at line 48) or a null `content` (`.strip()` at line 48) are not caught, and `main()` stops there. No model output file is written in any of these cases, so `None` stands for them too: the writes are the same.
- `os.path.splitext`, `basename`, `dirname` and `join` (lines 96-98): their result is the `stem` parameter of `PathOf`.
- The argument-count check and exit (lines 64-66), every `print`, the Windows event-loop policy and `asyncio.run` (lines 136-139): console output and process control only.
- `DECOMPILE_PROMPT` (lines 18-25): defined but never used by `main()`.
- Files are modelled by kind (`OutputFile`), not by path, so `RunWrites` does not show which writes land on the same file. `PathOf` gives the paths, and `BinPathOfBinInput` shows the one case where they meet the input: an input named `*.bin` is overwritten.
- File contents are modelled as the text written. UTF-8 encoding is not modelled.
- `PyStr.SplitOnce`, `PyStr.RSplitOnce`, `PyStr.ReplaceAll`, `PyStr.IndexOf`, `PyStr.LastIndexOf`: these require a non-empty separator. Python raises `ValueError` for an empty separator in `split`, `replace` behaves differently with one, and `find("")` returns 0 and `rfind("")` returns `len(s)`. The script only passes the fixed separators ".", "```python", "```" and "{Input}".
- `PyStr.ReplaceAll`: only the case the script uses is proved, a single occurrence at the very end (`PyStr.ReplaceAllAtEnd`). No general characterization of `replace` is stated.
