/** Answer generation: the retrieved chunks become a numbered, company-labelled context block,
    the context and the question are placed in a fixed prompt, and the language model is asked
    once. The model is a parameter `generate` from a prompt to its reply text or an error. */
module QaService {
  import opened Text
  import opened Numerals
  import opened Wrappers
  import opened SearchService
  import Settings

  /** The fixed answer when nothing was retrieved; the prompt asks the model to use the same
      phrase when the sources do not answer the question. */
  const Sentinel: string := "Information not found in the provided ESG documents."

  /** The prompt's instructions, up to the opening quote of the fallback phrase. */
  const Instructions: string :=
    "\nYou are a Sustainability ESG Analyst providing detailed, comprehensive insights.\n\n" +
    "CRITICAL REQUIREMENTS:\n" +
    "- Provide a DETAILED, COMPREHENSIVE answer between 200-400 words\n" +
    "- Answer ONLY using the sources provided below\n" +
    "- Do NOT use outside knowledge or make assumptions\n" +
    "- Structure your response with clear paragraphs covering different aspects\n" +
    "- Include specific details, numbers, targets, and timelines from the sources\n" +
    "- Explain the context, implications, and significance of the findings\n" +
    "- If the answer is not clearly present in sources, say: \""

  /** From the closing quote of the fallback phrase to the response structure's last point. */
  const ResponseStructure: string :=
    "\"\n\n" +
    "RESPONSE STRUCTURE:\n" +
    "1. Start with a direct answer to the question\n" +
    "2. Provide detailed explanation with specific data points from sources\n" +
    "3. Include relevant context about targets, timelines, and methodologies\n" +
    "4. Discuss implications or significance where relevant\n" +
    "5. Cite which companies the information comes from\n\n"

  /** The prompt up to and including the line that introduces the sources. */
  const PromptHead: string := Instructions + Sentinel + ResponseStructure + SourcesLabel

  const SourcesLabel: string := "SOURCES:\n"

  /** Between the context and the question. */
  const QuestionLabel: string := "\n\nUSER QUESTION:\n"

  /** After the question. */
  const PromptTail: string := "\n\nDETAILED ANSWER (200-400 words, professional, well-structured paragraphs):\n"

  /** The separator between context entries: a blank line. */
  const EntrySeparator: string := "\n\n"

  /** An optional value as an f-string renders it: a missing value prints as "None". */
  function Show(v: Option<string>): string {
    if v.Some? then v.value else "None"
  }

  /** The tag of the i-th retrieved chunk, counting from 1. */
  function EntryLabel(i: nat, company: Option<string>): string {
    "Source " + NatToString(i + 1) + " (Company: " + Show(company) + "):\n"
  }

  function SourceEntry<S>(i: nat, c: SearchResult<S>): string {
    EntryLabel(i, c.company) + Show(c.text)
  }

  function Entries<S>(chunks: seq<SearchResult<S>>): (entries: seq<string>)
    ensures |entries| == |chunks|
    ensures forall i :: 0 <= i < |chunks| ==> entries[i] == SourceEntry(i, chunks[i])
  {
    seq(|chunks|, i requires 0 <= i < |chunks| => SourceEntry(i, chunks[i]))
  }

  /** The context block: the entries in retrieval order, separated by blank lines. It is empty
      only when nothing was retrieved, and a single chunk gives its entry alone. */
  function Context<S>(chunks: seq<SearchResult<S>>): (c: string)
    ensures c == [] <==> chunks == []
    ensures |chunks| == 1 ==> c == SourceEntry(0, chunks[0])
  {
    Join(Entries(chunks), EntrySeparator)
  }

  /** The prompt sent to the model: the fixed head, the context, the "USER QUESTION:" line, the
      question and the fixed closing text (where each part stands is `PromptSections`). */
  function Prompt(context: string, userQuery: string): string {
    PromptHead + context + QuestionLabel + userQuery + PromptTail
  }

  /** What one answer costs and yields: the answer, or the generator's error, and the prompts
      sent to the generator, in order. */
  datatype Reply = Reply(answer: Result<string, string>, prompts: seq<string>)

  /** QAService.generate_answer. */
  function GenerateAnswer<S>(userQuery: string, topChunks: seq<SearchResult<S>>,
                             generate: string -> Result<string, string>): (r: Reply)
    ensures topChunks == [] <==> r.prompts == []
    ensures topChunks == [] ==> r.answer == Success(Sentinel)
    ensures topChunks != [] ==> r.prompts == [Prompt(Context(topChunks), userQuery)]
    ensures topChunks != [] ==> (r.answer.Success? <==> generate(r.prompts[0]).Success?)
    ensures topChunks != [] && r.answer.Success? ==> r.answer.value == Strip(generate(r.prompts[0]).value)
    ensures topChunks != [] && r.answer.Failure? ==> r.answer.error == generate(r.prompts[0]).error
  {
    if topChunks == [] then Reply(Success(Sentinel), [])
    else
      var prompt := Prompt(Context(topChunks), userQuery);
      var response := generate(prompt);
      if response.Success? then Reply(Success(Strip(response.value)), [prompt])
      else Reply(Failure(response.error), [prompt])
  }

  /** A generated answer never starts or ends with whitespace. */
  lemma AnswerTrimmed<S>(userQuery: string, topChunks: seq<SearchResult<S>>,
                         generate: string -> Result<string, string>)
    ensures var a := GenerateAnswer(userQuery, topChunks, generate).answer;
      topChunks != [] && a.Success? && a.value != [] ==> !IsSpace(a.value[0]) && !IsSpace(a.value[|a.value| - 1])
  {
    if topChunks != [] {
      var prompt := Prompt(Context(topChunks), userQuery);
      if generate(prompt).Success? {
        assert GenerateAnswer(userQuery, topChunks, generate).answer.value == Strip(generate(prompt).value);
        StripShape(generate(prompt).value);
      }
    }
  }

  /** A reply with no surrounding whitespace comes back as it is, after the single call. */
  lemma TrimmedReplyReturned<S>(userQuery: string, topChunks: seq<SearchResult<S>>,
                                generate: string -> Result<string, string>, text: string)
    requires topChunks != [] && generate(Prompt(Context(topChunks), userQuery)) == Success(text)
    requires text != [] && !IsSpace(text[0]) && !IsSpace(text[|text| - 1])
    ensures GenerateAnswer(userQuery, topChunks, generate) ==
      Reply(Success(text), [Prompt(Context(topChunks), userQuery)])
  {
    StripKeepsTrimmed(text);
  }

  /** The five pieces of a + b + c + d + e, each at its place. */
  lemma Sections(a: string, b: string, c: string, d: string, e: string)
    ensures var p := a + b + c + d + e;
      var i := |a|; var j := i + |b|; var k := j + |c|; var l := k + |d|;
      |p| == l + |e| && p[..i] == a && p[i..j] == b && p[j..k] == c && p[k..l] == d && p[l..] == e
  {
    var p := a + b + c + d + e;
    assert p == a + (b + (c + (d + e)));
  }

  /** Where the parts of the prompt stand: the fixed head, the context right after it, the
      "USER QUESTION:" line, the question right after that, and the fixed text closing it. */
  lemma PromptSections(context: string, userQuery: string)
    ensures var p := Prompt(context, userQuery); var h := |PromptHead|;
      var q := h + |context| + |QuestionLabel|;
      (q + |userQuery| + |PromptTail| == |p| &&
       p[..h] == PromptHead && p[h..h + |context|] == context &&
       p[h + |context|..q] == QuestionLabel && p[q..q + |userQuery|] == userQuery &&
       p[q + |userQuery|..] == PromptTail)
  {
    Sections(PromptHead, context, QuestionLabel, userQuery, PromptTail);
  }

  /** The fallback instruction inside the prompt quotes the fixed answer word for word, and the
      head closes with the line that introduces the sources. */
  lemma PromptNamesSentinel()
    ensures var k := |Instructions|;
      k + |Sentinel| <= |PromptHead| && PromptHead[k..k + |Sentinel|] == Sentinel
    ensures EndsWith(PromptHead, SourcesLabel)
  {
    Sections(Instructions, Sentinel, ResponseStructure, SourcesLabel, "");
    assert PromptHead == Instructions + Sentinel + ResponseStructure + SourcesLabel + "";
  }

  /** Entry i of the context block (the chunk's 1-based label, company and text, by `Entries`)
      stands at its offset and is followed by a blank line unless it is the last. */
  lemma ContextEntryAt<S>(chunks: seq<SearchResult<S>>, i: nat)
    requires i < |chunks|
    ensures var c := Context(chunks); var e := Entries(chunks);
      var o := PartOffset(e, EntrySeparator, i);
      (o + |e[i]| <= |c| && c[o..o + |e[i]|] == e[i] &&
       (i + 1 < |chunks| ==> o + |e[i]| + |EntrySeparator| <= |c| &&
                             c[o + |e[i]|..o + |e[i]| + |EntrySeparator|] == EntrySeparator))
  {
    JoinPartAt(Entries(chunks), EntrySeparator, i);
  }

  /** Two retrieved chunks give two labelled entries, numbered from 1, separated by a blank line. */
  lemma ContextOfTwoSources<S>(s1: S, c1: string, t1: string, s2: S, c2: string, t2: string)
    ensures Context([SearchResult(s1, Some(c1), Some(t1)), SearchResult(s2, Some(c2), Some(t2))]) ==
      ("Source 1 (Company: " + c1 + "):\n" + t1) + "\n\n" + ("Source 2 (Company: " + c2 + "):\n" + t2)
  {
    var chunks := [SearchResult(s1, Some(c1), Some(t1)), SearchResult(s2, Some(c2), Some(t2))];
    var e := Entries(chunks);
    assert NatToString(1) == "1" && NatToString(2) == "2";
    assert |e| == 2 && e[1..] == [e[1]];
    assert Join(e[1..], EntrySeparator) == e[1];
    assert Context(chunks) == e[0] + EntrySeparator + e[1];
    assert "Source " + "1" + " (Company: " == "Source 1 (Company: ";
    assert "Source " + "2" + " (Company: " == "Source 2 (Company: ";
  }

  /** The labels number the entries 1, 2, ... so no two entries carry the same number. */
  lemma EntryNumbersDistinct(i: nat, j: nat, ci: Option<string>, cj: Option<string>)
    requires EntryLabel(i, ci) == EntryLabel(j, cj)
    ensures i == j
  {
    var a := "Source " + NatToString(i + 1);
    var b := "Source " + NatToString(j + 1);
    NumberEndsAtSpace(i, ci);
    NumberEndsAtSpace(j, cj);
    var li := EntryLabel(i, ci);
    assert |a| == |b|;
    assert li[..|a|] == a && li[..|b|] == b;
    assert NatToString(i + 1) == a[7..] == b[7..] == NatToString(j + 1);
    NatToStringInjective(i + 1, j + 1);
  }

  lemma NumberEndsAtSpace(i: nat, c: Option<string>)
    ensures var a := "Source " + NatToString(i + 1); var l := EntryLabel(i, c);
      |a| < |l| && l[..|a|] == a && l[|a|] == ' '
  {
  }

  /** The function kept for older callers, with the model client passed in: the same shortcut,
      the same context block and the same prompt. */
  function GenerateAnswerWithGemini<S>(userQuery: string, topChunks: seq<SearchResult<S>>,
                                       generate: string -> Result<string, string>): (r: Reply)
    ensures topChunks == [] <==> r.prompts == []
    ensures topChunks == [] ==> r.answer == Success(Sentinel)
    ensures topChunks != [] ==> |r.prompts| == 1 && (r.answer.Success? <==> generate(r.prompts[0]).Success?)
    ensures topChunks != [] && r.answer.Success? ==> r.answer.value == Strip(generate(r.prompts[0]).value)
  {
    if topChunks == [] then Reply(Success(Sentinel), [])
    else
      var context := Join(seq(|topChunks|, i requires 0 <= i < |topChunks| => SourceEntry(i, topChunks[i])), "\n\n");
      var prompt := PromptHead + context + QuestionLabel + userQuery + PromptTail;
      var response := generate(prompt);
      if response.Success? then Reply(Success(Strip(response.value)), [prompt])
      else Reply(Failure(response.error), [prompt])
  }

  lemma LegacyAnswerAgrees<S>(userQuery: string, topChunks: seq<SearchResult<S>>,
                              generate: string -> Result<string, string>)
    ensures GenerateAnswerWithGemini(userQuery, topChunks, generate) == GenerateAnswer(userQuery, topChunks, generate)
  {
  }

  /** QAService.ask_question: search with the default number of results and no company filter,
      then answer from what was found; the results are handed back unchanged. */
  method AskQuestion<V, S>(userQuery: string, encode: string -> V, query: QueryRequest<V> -> seq<Match<S>>,
                           generate: string -> Result<string, string>)
    returns (topChunks: seq<SearchResult<S>>, reply: Reply, request: QueryRequest<V>)
    ensures IsRequestFor(request, encode(userQuery), Settings.TopK, None) && request.filter.None?
    ensures |topChunks| == |query(request)|
    ensures forall i :: 0 <= i < |topChunks| ==> topChunks[i] == ResultOf(query(request)[i])
    ensures reply == GenerateAnswer(userQuery, topChunks, generate)
  {
    topChunks, request := SemanticSearch(userQuery, Settings.TopK, None, encode, query);
    reply := GenerateAnswer(userQuery, topChunks, generate);
  }
}
