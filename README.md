# SCALE report pipeline: fact cover, context parser and prompt enumerator

This project models the pure core of three scripts of the SCALE report
pipeline in Dafny, and proves what they promise.

- **Nugget-to-minimal-document resolver** (`find_fewest_files.py`, module
  `FewestFiles`):
  - `flatten_facts` sorts each question's requirement into AND/OR
    requirements. The input shapes are an object of fact labels to document
    lists, a list of such objects, or an `["OR", alternatives]` pair.
  - `select_min_doc_ids` does three things. It keeps the best alternative of
    each OR group. It builds the fact → document-set table. Then it picks
    documents greedily until every fact that some document supports is
    covered.
  - Both are modelled as methods with loops, proved against specification
    functions (`Flatten`, `CollectFacts`, `Table`) and against the ghost
    predicates of a greedy cover (`Covers`, `GreedyRun`).
- **Context parser** (`prompt_final.py`, module `PromptFinal`):
  - `extract_titles_passages` cuts a research context of the form
    `Source: <id> Title: <title> Content: <text> …` into
    `{docid, title, passage}` records. It maps source ids through a
    dictionary.
  - The requirements-only `build_prompt` is modelled here too.
- **Prompt-variant enumerator** (`cli/prompt_generator.py`, module
  `PromptGenerator`):
  - `build_prompt` renders one combination of the twelve instruction lists
    into the query/background template.
  - `generate_prompt_df` enumerates the `itertools.product` of the lists.
    It numbers the rows `prompt_1 … prompt_N`.

Four supporting modules:

- `Wrappers` holds `Option` and `Result`.
- `PyStrings` holds the Python `str` operations the scripts use: `strip`,
  `in`, `split`, `join`, `replace`, `str(int)`. They have CPython's meaning
  for strings as sequences of Unicode scalar values.
- `ReportRequirements` holds the "Report Requirements:" block that both
  `build_prompt` functions render.
- `CartesianProduct` holds the enumeration order of `itertools.product`:
  position i is i written in the mixed radix of the list lengths, with the
  last list varying fastest.

The model follows the code in two places where a reader might expect
something else of the resolver:

- **Tie-break of the greedy pick.** A reproducible run would break a tie
  between equally supportive documents by taking the smallest document id.
  The code does not: it takes the first maximal entry of a dictionary built
  by iterating a set, which is hash order. The model therefore allows any
  document of maximal count (`GreedyStep`).
- **Exceptions.** One would expect no malformed question to be fatal, with
  each one skipped or warned about. The code raises `IndexError` for an
  empty list value or a lone `"OR"`, `AttributeError` for an OR payload
  that is not an object, and `ValueError` for `min` over an empty OR
  object. The model returns these as `Err` values.
- **Unknown shapes.** The warning for an unrecognised shape is a `print`.
  The model records the question in the `unknown` list.

## Model

| member | source | states |
|---|---|---|
| FewestFiles.FlattenFacts | find_fewest_files.py:5-20 | the loop's result is `Flatten(data)`: each question's contribution appended in input order, or the first IndexError |
| FewestFiles.DictElements | find_fewest_files.py:13-15 | the inner loop over a list value yields exactly `DictItems(items)` |
| FewestFiles.DictItems | find_fewest_files.py:12-15 | a list value yields only AND requirements of its own object elements, and every object element yields one |
| FewestFiles.DictItemsAppend | find_fewest_files.py:13-15 | the requirements of consecutive list elements are concatenated, so they follow list order |
| FewestFiles.DictItemsOne | find_fewest_files.py:14-15 | one element yields exactly one AND requirement of itself when it is an object, and nothing otherwise |
| FewestFiles.FlattenOne | find_fewest_files.py:9-19 | shape by shape: `["OR", x, …]` gives one `Or(x)`; an empty list or a lone "OR" raises; another list gives its object elements; an object gives one `And`; any other value gives only a warning |
| FewestFiles.FlattenAppend | find_fewest_files.py:8-20 | flattening a concatenation concatenates the requirements and the warnings in input order; the first failing question decides the error |
| FewestFiles.FlattenPrefixError | find_fewest_files.py:9-11 | once a question raises, later questions do not change the outcome |
| FewestFiles.BestIndex | find_fewest_files.py:27 | the chosen alternative has the least rank (empty lists rank infinite); every earlier alternative ranks strictly worse; an empty one is chosen only when all are empty |
| FewestFiles.CollectFacts | find_fewest_files.py:25-30 | collecting succeeds exactly when every OR payload is a non-empty object |
| FewestFiles.CollectAnd | find_fewest_files.py:29-30 | an AND requirement contributes its own facts, unchanged and in order |
| FewestFiles.CollectOr | find_fewest_files.py:26-28 | an OR requirement contributes exactly one fact, its best alternative |
| FewestFiles.CollectFactsAppend | find_fewest_files.py:25-30 | `all_facts` of consecutive requirement lists is the concatenation of their facts, in requirement order |
| FewestFiles.CollectPrefixError | find_fewest_files.py:26-28 | the first OR requirement that cannot be collapsed decides the error |
| FewestFiles.Table | find_fewest_files.py:32 | a label is in the table exactly when some occurrence has a non-empty list; no entry is empty |
| FewestFiles.TableLastWins | find_fewest_files.py:32 | a label maps to the documents of its last occurrence with a non-empty list |
| FewestFiles.TwoFactsTable | find_fewest_files.py:32 | the scenario A: [doc1, doc2], B: [doc2, doc3] builds the table A → {doc1, doc2}, B → {doc2, doc3} |
| FewestFiles.UnsupportedFactsGiveEmptyTable | find_fewest_files.py:32-33 | facts that all lack documents never enter the table or the uncovered set |
| FewestFiles.NothingToSelect | find_fewest_files.py:33-46 | with no supportable fact there is no document to select |
| FewestFiles.DocToFacts | find_fewest_files.py:37-40 | `doc_to_facts` maps exactly the documents that support an open fact to the open facts they support |
| FewestFiles.AddToBuckets | find_fewest_files.py:39-40 | adding a fact to the buckets of a document set touches exactly those buckets |
| FewestFiles.MostSupported | find_fewest_files.py:42 | the document returned supports at least as many open facts as any other |
| FewestFiles.PickIsGreedy | find_fewest_files.py:42 | that document is a greedy step: it closes an open fact, and no document closes more |
| FewestFiles.RemainingAfter | find_fewest_files.py:43-44 | selecting a document closes exactly the open facts it supports |
| FewestFiles.GreedyExtend | find_fewest_files.py:43 | appending a greedy step to a greedy run is a greedy run |
| FewestFiles.GreedyIteration | find_fewest_files.py:36-44 | one pass keeps the loop invariant and strictly shrinks the uncovered set |
| FewestFiles.CoverGreedily | find_fewest_files.py:33-46 | on return every fact is covered; only documents of the table are selected; every pick was greedy; at most one document per fact |
| FewestFiles.SelectMinDocIds | find_fewest_files.py:22-46 | an error exactly when collecting fails; otherwise a greedy cover of the table of the collected facts |
| FewestFiles.TwoOverlappingFacts | find_fewest_files.py:36-46 | on A: {doc1, doc2}, B: {doc2, doc3}, every complete greedy run selects doc2 alone |
| FewestFiles.FirstPickIsDoc2 | find_fewest_files.py:42 | in that scenario, the only greedy first pick is doc2 |
| FewestFiles.NothingAfterDoc2 | find_fewest_files.py:36 | in that scenario, once doc2 is selected no further pick is possible |
| PyStrings.Find | prompt_final.py:129 | `sub in s`: the index found is an occurrence and no earlier index is; None means no occurrence at all |
| PyStrings.ContainsOfStrip | prompt_final.py:129-130 | a marker found in the stripped header is also in the header |
| PyStrings.Split | prompt_final.py:126-127 | `split` yields at least one piece, and no piece holds the separator |
| PyStrings.JoinSplit | prompt_final.py:126 | joining the pieces of a split with the separator gives the text back |
| PyStrings.SplitJoin | prompt_final.py:127 | splitting a join of separator-free pieces on a border-free separator gives the pieces back |
| PyStrings.SplitTwoIff | prompt_final.py:128 | a text splits into exactly two pieces when it holds a border-free separator exactly once |
| PyStrings.SplitInTwo | prompt_final.py:127-130 | a text with one border-free separator splits into what precedes and what follows it |
| PyStrings.TwoOccurrencesSplitFurther | prompt_final.py:130 | a text with the separator twice does not split into two pieces |
| PyStrings.SplitChars | prompt_final.py:126-127 | the pieces of a split hold no character the text lacks |
| PyStrings.StripChars | prompt_final.py:131-139 | `strip` returns a slice of its input |
| PyStrings.ReplaceRemovesChar | prompt_final.py:126 | `replace('\n', ' ')` leaves no line break |
| PyStrings.NoOccurrenceInJoin | cli/prompt_generator.py:30 | a join of pattern-free pieces with a separator sharing no character with the pattern holds no pattern |
| PyStrings.ReplaceAbsent | cli/prompt_generator.py:30 | replacing a pattern that does not occur changes nothing |
| PyStrings.StripFramed | cli/prompt_generator.py:20-38 | stripping "\n" + body + "\n" removes the added newline and only the body's trailing whitespace, for a body opening with a non-space |
| PyStrings.StripFramedPrefix | cli/prompt_generator.py:20-38 | such a stripped text still begins with the body's head and is the body up to trailing whitespace |
| PyStrings.DecimalRoundTrip | cli/prompt_generator.py:63 | reading back `str(n)` gives n |
| PyStrings.NatToDecimalInjective | cli/prompt_generator.py:63 | distinct numbers have distinct decimal texts |
| PyStrings.IntToStringValue | cli/prompt_generator.py:30 | `str(total_words)` reads back as `total_words`, with a leading minus for a negative value |
| ReportRequirements.LengthLineFilled | cli/prompt_generator.py:30 | no `{total_words}` is left in the length bullet |
| ReportRequirements.LengthLinePieces | cli/prompt_generator.py:30 | the length bullet and the length instruction are joins of the same placeholder-free pieces, with the decimal text and the placeholder as glue: only the placeholder is substituted |
| ReportRequirements.LengthLineVerbatim | prompt_final.py:64 | a length instruction without the placeholder is used verbatim |
| ReportRequirements.BlockBullets | prompt_final.py:59-72 | cutting the block at each "\n- " gives the heading and the eleven instructions, in template order and unchanged, when no instruction holds such a line itself |
| ReportRequirements.BlockStartsWithHeading | prompt_final.py:60 | the block opens with "Report Requirements:" |
| ReportRequirements.StrippedTemplate | cli/prompt_generator.py:20-38 | the stripped template is the laid-out text minus its trailing whitespace, and still begins with the text before the block and the heading |
| PromptFinal.BuildPromptLayout | prompt_final.py:59-72 | `build_prompt(combo)` opens with the heading and is the requirements block with only its trailing whitespace dropped |
| PromptFinal.ExtractTitlesPassages | prompt_final.py:124-141 | the loop's result is `Extract(context, doc_dict)`, or the unpack error of the first bad header |
| PromptFinal.ParseItem | prompt_final.py:127-140 | the loop body computes the segment's outcome: skipped, one record, or an unpack error |
| PromptFinal.ExtractStep | prompt_final.py:125-140 | one more segment extends the records by that segment's outcome |
| PromptFinal.ExtractAppend | prompt_final.py:126-140 | the records of consecutive segments are concatenated, so records follow segment order |
| PromptFinal.ExtractPrefixError | prompt_final.py:130 | a header that fails to unpack ends the parse with its error |
| PromptFinal.ExtractSingle | prompt_final.py:126-140 | a lone segment yields its own outcome |
| PromptFinal.SegmentKeptIffOneContent | prompt_final.py:127-128 | a segment is dropped exactly when it does not hold `Content:` exactly once |
| PromptFinal.SegmentFields | prompt_final.py:127-140 | with one `Content:`, the header is what precedes it; the record's id is the stripped, remapped header id; the passage is the stripped text after it |
| PromptFinal.HeaderWithoutTitle | prompt_final.py:133-135 | a header without `Title:` is all source id (stripped), with an empty title |
| PromptFinal.HeaderWithOneTitle | prompt_final.py:129-132 | with one `Title:`, the id is the stripped text before it and the title the stripped text after it |
| PromptFinal.HeaderWithTwoTitles | prompt_final.py:130 | a header holding `Title:` twice fails to unpack |
| PromptFinal.SegmentNewlineFree | prompt_final.py:127-140 | a segment without line breaks gives a record whose title and passage hold none; its id holds one only when it is the stripped value of a dictionary key whose value holds one |
| PromptFinal.ExtractFromNewlineFree | prompt_final.py:125-141 | the same, for every record of a run of such segments |
| PromptFinal.ExtractNewlineFree | prompt_final.py:126 | no title or passage holds a line break; an id holds one only when it is the stripped value of a dictionary key whose value holds one |
| CartesianProduct.TupleAt | cli/prompt_generator.py:45-58 | position i of the product picks a valid index in every list |
| CartesianProduct.Position | cli/prompt_generator.py:45-58 | every index tuple has a position below the product of the lengths |
| CartesianProduct.PositionOfTupleAt | cli/prompt_generator.py:45-58 | decoding then encoding a position gives it back |
| CartesianProduct.TupleAtOfPosition | cli/prompt_generator.py:45-58 | encoding then decoding a tuple gives it back: each tuple occurs exactly once |
| CartesianProduct.EnumerationOrder | cli/prompt_generator.py:45-58 | later positions hold lexicographically later tuples, so the last list varies fastest |
| CartesianProduct.CountZero | cli/prompt_generator.py:45-58 | the product is empty exactly when one of the lists is |
| PromptGenerator.Combinations | cli/prompt_generator.py:45-58 | there are as many combinations as the product of the twelve list lengths |
| PromptGenerator.BuildPromptLayout | cli/prompt_generator.py:20-38 | the prompt opens with the query and background preamble, then the heading; it is the laid-out template minus trailing whitespace |
| PromptGenerator.GeneratePromptRows | cli/prompt_generator.py:41-78 | one row per combination, in product order; row i has id `prompt_<i+1>`, the combination's fields, and `build_prompt` of it |
| PromptGenerator.RenderRows | cli/prompt_generator.py:59-77 | the loop builds row k from id `prompt_<k+1>`, entry k of the combination list and the prompt rendered from that entry, for every k |
| PromptGenerator.NoRowsIffEmptyList | cli/prompt_generator.py:45-58 | there are no rows exactly when one of the twelve lists is empty |
| PromptGenerator.RowIdsNumbered | cli/prompt_generator.py:63 | the id of row i is "prompt_" followed by the decimal text of i + 1; distinct rows have distinct ids |
| PromptGenerator.EveryChoiceEnumerated | cli/prompt_generator.py:45-58 | every choice of one entry per list is rendered, at the position the enumeration gives it |
| PromptGenerator.RowsInProductOrder | cli/prompt_generator.py:45-58 | row i renders the choice decoded from i, and earlier rows precede later ones lexicographically |

## Left out

- The `__main__` block of `find_fewest_files.py` is left out: directory walking, file checks, JSON loading and printing are I/O. JSON values are modelled only in the shapes the flattener tells apart (`Value`). An object is taken to map fact labels to lists of document ids.
- The unknown-shape `print` of `flatten_facts` is recorded as the list of question ids, not as output.
- FewestFiles.CoverGreedily does not fix which maximal document `max` returns. Python's choice depends on set hash order, so the model allows any document of maximal count. A smallest-id tie-break is not modelled, because the code has none.
- Floating point is left out: the `float('inf')` sort key of the OR collapse is the `Infinite` case of the `Rank` datatype.
- `generate_prompt_df` of `prompt_final.py` is left out, because it reads module-level lists loaded from a file. The same is true of `CustomLogsHandler`, the async `get_report_phase1` and the `__main__` block (researcher calls, pandas sampling, file output).
- The pandas DataFrame and its `sample(random_state=42)` are left out. Rows are a sequence of `PromptRow` records.
- ReportRequirements.BlockBullets: reading the bullets back requires that no instruction itself holds a line starting with "- ". Otherwise the rendered block is ambiguous.
- `trans.py`, `cli/config_loader.py`, `cli/evaluator.py`, `cli/main.py`, `cli/report_generator.py` and `argue_pipe.py` are not part of this model. They are subprocess calls, file loading, LLM and evaluation orchestration, or copies of the modelled functions that read globals.
- Unicode handling beyond scalar values is left out: strings are sequences of `char`, so the lone surrogates a Python `str` can hold are not represented, and `isspace` is the fixed list of characters CPython treats as whitespace.
