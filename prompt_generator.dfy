/**
 * The prompt-variant enumerator of the command-line tool: every combination of
 * the twelve instruction lists, rendered into the query/background prompt and
 * numbered `prompt_1` .. `prompt_N` in `itertools.product` order.
 */
module PromptGenerator {
  import opened PyStrings
  import opened ReportRequirements
  import opened CartesianProduct

  /** The twelve lists of an instruction set, in the order they enter the product. */
  datatype InstructionSets = InstructionSets(
    totalWordsOptions: seq<int>,
    focusInstructions: seq<string>,
    structureInstructions: seq<string>,
    factInstructions: seq<string>,
    lengthInstructions: seq<string>,
    depthInstructions: seq<string>,
    opinionInstructions: seq<string>,
    biasInstructions: seq<string>,
    citationInstructions: seq<string>,
    toneInstructions: seq<string>,
    formattingInstructions: seq<string>,
    extraInstructions: seq<string>)

  /** One record of the generated table: its id, the combination it renders, and the prompt. */
  datatype PromptRow = PromptRow(id: string, combo: Combo, promptText: string)

  /** The list lengths, which are the digits' radices of the product enumeration. */
  function Radices(ins: InstructionSets): (r: seq<nat>)
    ensures |r| == 12
  {
    [|ins.totalWordsOptions|, |ins.focusInstructions|, |ins.structureInstructions|,
     |ins.factInstructions|, |ins.lengthInstructions|, |ins.depthInstructions|,
     |ins.opinionInstructions|, |ins.biasInstructions|, |ins.citationInstructions|,
     |ins.toneInstructions|, |ins.formattingInstructions|, |ins.extraInstructions|]
  }

  /** The combination that picks entry t[k] of the k-th list. */
  function ComboOf(ins: InstructionSets, t: seq<nat>): Combo
    requires InRange(t, Radices(ins))
  {
    Combo(ins.totalWordsOptions[t[0]], ins.focusInstructions[t[1]], ins.structureInstructions[t[2]],
          ins.factInstructions[t[3]], ins.lengthInstructions[t[4]], ins.depthInstructions[t[5]],
          ins.opinionInstructions[t[6]], ins.biasInstructions[t[7]], ins.citationInstructions[t[8]],
          ins.toneInstructions[t[9]], ins.formattingInstructions[t[10]], ins.extraInstructions[t[11]])
  }

  /** `list(itertools.product(...))` over the twelve lists. */
  function Combinations(ins: InstructionSets): (cs: seq<Combo>)
    ensures |cs| == Count(Radices(ins))
  {
    var n := Count(Radices(ins));
    seq(n, i requires 0 <= i < n => ComboOf(ins, TupleAt(i, Radices(ins))))
  }

  /** The text before the requirements block: the query, a rule, and the background sentence. */
  function Preamble(query: string, background: string): string {
    "Information: \"" + query + "\"\n---\n\nUsing the above information, provide supporting facts for the query: \""
    + background + "\"\n\n"
  }

  /** `build_prompt(combo, query, background)`: the triple-quoted template, stripped. */
  function BuildPrompt(c: Combo, query: string, background: string): string {
    Strip("\n" + (Preamble(query, background) + RequirementsBlock(c)) + "\n")
  }

  /**
   * The prompt opens with the preamble and the heading, and is the laid-out
   * template with only its trailing whitespace dropped.
   */
  lemma BuildPromptLayout(c: Combo, query: string, background: string)
    ensures var pre := Preamble(query, background);
            var r := BuildPrompt(c, query, background);
            && |pre| + |Heading| <= |r| <= |pre + RequirementsBlock(c)|
            && r[..|pre| + |Heading|] == pre + Heading
            && r == (pre + RequirementsBlock(c))[..|r|]
            && AllSpace((pre + RequirementsBlock(c))[|r|..])
  {
    var pre, block := Preamble(query, background), RequirementsBlock(c);
    var head := pre + Heading;
    BlockStartsWithHeading(c);
    assert pre + block == head + block[|Heading|..];
    assert head[0] == 'I' && head[|head| - 1] == ':';
    StripFramedPrefix(head, block[|Heading|..]);
  }

  /** The id of the row at 0-based position i. */
  function RowId(i: nat): string {
    "prompt_" + NatToDecimal(i + 1)
  }

  /**
   * `generate_prompt_df(query, background, instructions)`, as the list of row
   * records the data frame is built from: one row per combination, in product
   * order, numbered from 1.
   */
  method GeneratePromptRows(query: string, background: string, ins: InstructionSets)
    returns (rows: seq<PromptRow>)
    ensures |rows| == Count(Radices(ins))
    ensures forall i :: 0 <= i < |rows| ==>
      var c := Combinations(ins)[i];
      rows[i] == PromptRow(RowId(i), c, BuildPrompt(c, query, background))
  {
    var all := Combinations(ins);
    rows := RenderRows(all, c => BuildPrompt(c, query, background));
  }

  /**
   * The `for i, combo in enumerate(all_combinations)` loop, with the call
   * `build_prompt(combo, query, background)` passed in as `render`.
   */
  method RenderRows(all: seq<Combo>, render: Combo -> string) returns (rows: seq<PromptRow>)
    ensures |rows| == |all|
    ensures forall i :: 0 <= i < |rows| ==> rows[i] == PromptRow(RowId(i), all[i], render(all[i]))
  {
    rows := [];
    var i := 0;
    while i < |all|
      invariant i == |rows| <= |all|
      invariant forall k :: 0 <= k < i ==> rows[k] == PromptRow(RowId(k), all[k], render(all[k]))
    {
      var promptText := render(all[i]);
      rows := rows + [PromptRow(RowId(i), all[i], promptText)];
      i := i + 1;
    }
  }

  // ---------------------------------------------------------------------------
  // Properties of the enumeration

  /** There are no rows exactly when one of the twelve lists is empty. */
  lemma NoRowsIffEmptyList(ins: InstructionSets)
    ensures |Combinations(ins)| == 0 <==> exists k :: 0 <= k < 12 && Radices(ins)[k] == 0
  {
    CountZero(Radices(ins));
  }

  /** Ids are distinct, and the number in row i's id reads back as i + 1. */
  lemma RowIdsNumbered(i: nat, j: nat)
    ensures |RowId(i)| > 7 && RowId(i)[..7] == "prompt_" && DecimalValue(RowId(i)[7..]) == i + 1
    ensures i != j ==> RowId(i) != RowId(j)
  {
    assert RowId(i)[7..] == NatToDecimal(i + 1);
    DecimalRoundTrip(i + 1);
    if i != j {
      NatToDecimalInjective(i + 1, j + 1);
      assert RowId(j)[7..] == NatToDecimal(j + 1);
    }
  }

  /** Every choice of one entry per list is rendered, at the position the enumeration gives it. */
  lemma EveryChoiceEnumerated(ins: InstructionSets, t: seq<nat>)
    requires InRange(t, Radices(ins))
    ensures Position(t, Radices(ins)) < |Combinations(ins)|
    ensures Combinations(ins)[Position(t, Radices(ins))] == ComboOf(ins, t)
  {
    TupleAtOfPosition(t, Radices(ins));
  }

  /** Row i renders the choice the enumeration decodes from i, and earlier rows precede it lexicographically. */
  lemma RowsInProductOrder(ins: InstructionSets, i: nat, j: nat)
    requires i < j < |Combinations(ins)|
    ensures Combinations(ins)[i] == ComboOf(ins, TupleAt(i, Radices(ins)))
    ensures LexLess(TupleAt(i, Radices(ins)), TupleAt(j, Radices(ins)))
  {
    EnumerationOrder(i, j, Radices(ins));
  }
}
