/**
 * The nugget-to-minimal-document resolver (find_fewest_files.py).
 *
 * A topic's nugget file maps each question to a requirement: a fact mapping
 * whose facts are all mandatory ("AND"), a list of such mappings, or a tagged
 * ["OR", alternatives] pair of which one alternative suffices. The flattener
 * turns that mapping into an ordered list of AND/OR requirements; the resolver
 * keeps, for each OR requirement, the alternative with the fewest supporting
 * documents, builds a fact -> document-set table, and picks documents greedily
 * until every supportable fact is covered.
 */
module FewestFiles {
  import opened Wrappers

  type DocId = string
  type FactLabel = string

  /** A JSON object from fact labels to the ids of the documents that support each fact, in key order. */
  type FactDict = seq<(FactLabel, seq<DocId>)>

  /** The shapes of a JSON value that flatten_facts tells apart. */
  datatype Value =
    | Str(s: string)            // a JSON string, such as the "OR" tag
    | Facts(entries: FactDict)  // a JSON object of fact labels to document-id lists
    | List(items: seq<Value>)   // a JSON array
    | Other                     // a number, a boolean or null

  datatype Requirement =
    | And(facts: FactDict)       // every fact must be covered
    | Or(alternatives: Value)    // the payload after the "OR" tag, as found in the file

  /** The requirements in input order, and the questions whose value had no known shape (the warnings). */
  datatype Flattened = Flattened(required: seq<Requirement>, unknown: seq<string>)

  /** The exceptions the Python code raises on malformed input. */
  datatype Error =
    | IndexError(question: string)  // `info[0]` on an empty list, or `info[1]` after a lone "OR"
    | NotAMapping                   // `.items()` on an OR payload that is not an object
    | EmptyAlternatives             // `min()` over an OR object with no entries

  // ---------------------------------------------------------------------------
  // flatten_facts

  /** The AND requirements a list value contributes: one per object element, in list order. */
  function DictItems(items: seq<Value>): (r: seq<Requirement>)
    ensures |r| <= |items|
    ensures forall k :: 0 <= k < |r| ==> r[k].And? && Facts(r[k].facts) in items
    ensures forall d :: Facts(d) in items ==> And(d) in r
    decreases |items|
  {
    if items == [] then []
    else
      var init := items[..|items| - 1];
      var last := items[|items| - 1];
      assert items == init + [last];
      DictItems(init) + (if last.Facts? then [And(last.entries)] else [])
  }

  /** The AND requirements of a list value come in list order: a concatenation contributes both parts in turn. */
  lemma {:induction false} DictItemsAppend(a: seq<Value>, b: seq<Value>)
    ensures DictItems(a + b) == DictItems(a) + DictItems(b)
    decreases |b|
  {
    if b == [] {
      assert a + b == a;
    } else {
      var n := |b| - 1;
      assert (a + b)[..|a + b| - 1] == a + b[..n];
      assert (a + b)[|a + b| - 1] == b[n];
      DictItemsAppend(a, b[..n]);
      var last := if b[n].Facts? then [And(b[n].entries)] else [];
      assert DictItems(a + b) == DictItems(a + b[..n]) + last;
      assert DictItems(b) == DictItems(b[..n]) + last;
      assert DictItems(a) + (DictItems(b[..n]) + last) == (DictItems(a) + DictItems(b[..n])) + last;
    }
  }

  /** One list element: an object gives one AND requirement, anything else gives none. */
  lemma DictItemsOne(v: Value)
    ensures DictItems([v]) == if v.Facts? then [And(v.entries)] else []
  {
    assert [v][..0] == [];
  }

  /** What one question's value contributes to the flattened list. */
  datatype Contribution = Adds(reqs: seq<Requirement>) | Unrecognised | Raises

  function Classify(info: Value): Contribution {
    match info
    case List(items) =>
      if |items| == 0 then Raises
      else if items[0] == Str("OR") then
        (if |items| < 2 then Raises else Adds([Or(items[1])]))
      else Adds(DictItems(items))
    case Facts(d) => Adds([And(d)])
    case _ => Unrecognised
  }

  /** One turn of the flatten_facts loop: add the question's requirements, or its warning, or fail. */
  function Step(acc: Result<Flattened, Error>, entry: (string, Value)): Result<Flattened, Error> {
    if acc.Err? then acc
    else
      match Classify(entry.1)
      case Adds(rs) => Ok(Flattened(acc.value.required + rs, acc.value.unknown))
      case Unrecognised => Ok(Flattened(acc.value.required, acc.value.unknown + [entry.0]))
      case Raises => Err(IndexError(entry.0))
  }

  /** flatten_facts as a function of the ordered question mapping; the first failing question aborts. */
  function Flatten(data: seq<(string, Value)>): Result<Flattened, Error>
    decreases |data|
  {
    if data == [] then Ok(Flattened([], []))
    else Step(Flatten(data[..|data| - 1]), data[|data| - 1])
  }

  /** How the results for two consecutive parts of the input combine. */
  function Combine(a: Result<Flattened, Error>, b: Result<Flattened, Error>): Result<Flattened, Error> {
    if a.Err? then a
    else if b.Err? then b
    else Ok(Flattened(a.value.required + b.value.required, a.value.unknown + b.value.unknown))
  }

  /**
   * Flattening is compositional: the output lists the contributions in input
   * order, and the first question that raises decides the error.
   */
  lemma {:induction false} FlattenAppend(a: seq<(string, Value)>, b: seq<(string, Value)>)
    ensures Flatten(a + b) == Combine(Flatten(a), Flatten(b))
    decreases |b|
  {
    if b == [] {
      assert a + b == a;
      if Flatten(a).Ok? {
        var fa := Flatten(a).value;
        assert fa.required + [] == fa.required && fa.unknown + [] == fa.unknown;
      }
    } else {
      var n := |b| - 1;
      assert (a + b)[..|a + b| - 1] == a + b[..n];
      assert (a + b)[|a + b| - 1] == b[n];
      FlattenAppend(a, b[..n]);
      var fa, fb := Flatten(a), Flatten(b[..n]);
      if fa.Ok? && fb.Ok? {
        var e := b[n];
        match Classify(e.1)
        case Adds(rs) =>
          assert fa.value.required + (fb.value.required + rs) == (fa.value.required + fb.value.required) + rs;
        case Unrecognised =>
          assert fa.value.unknown + (fb.value.unknown + [e.0]) == (fa.value.unknown + fb.value.unknown) + [e.0];
        case Raises =>
      }
    }
  }

  /** One question on its own, shape by shape. */
  lemma FlattenOne(q: string, info: Value)
    ensures info.List? && info.items == [] ==> Flatten([(q, info)]) == Err(IndexError(q))
    ensures info.List? && |info.items| == 1 && info.items[0] == Str("OR")
            ==> Flatten([(q, info)]) == Err(IndexError(q))
    ensures info.List? && |info.items| >= 2 && info.items[0] == Str("OR")
            ==> Flatten([(q, info)]) == Ok(Flattened([Or(info.items[1])], []))
    ensures info.List? && info.items != [] && info.items[0] != Str("OR")
            ==> Flatten([(q, info)]) == Ok(Flattened(DictItems(info.items), []))
    ensures info.Facts? ==> Flatten([(q, info)]) == Ok(Flattened([And(info.entries)], []))
    ensures info.Str? || info.Other? ==> Flatten([(q, info)]) == Ok(Flattened([], [q]))
  {
    assert [(q, info)][..0] == [];
    match Classify(info)
    case Adds(rs) => assert [] + rs == rs;
    case Unrecognised => assert [] + [q] == [q];
    case Raises =>
  }

  /** flatten_facts: a loop that appends each question's requirements, or records a warning for it. */
  method FlattenFacts(data: seq<(string, Value)>) returns (r: Result<Flattened, Error>)
    ensures r == Flatten(data)
  {
    var required: seq<Requirement> := [];
    var unknown: seq<string> := [];
    var i := 0;
    while i < |data|
      invariant 0 <= i <= |data|
      invariant Flatten(data[..i]) == Ok(Flattened(required, unknown))
    {
      assert data[..i + 1][..i] == data[..i];
      assert Flatten(data[..i + 1]) == Step(Flatten(data[..i]), data[i]);
      var (q, info) := data[i];
      match info {
        case List(items) =>
          if |items| == 0 {
            FlattenPrefixError(data, i + 1);
            return Err(IndexError(q));
          }
          if items[0] == Str("OR") {
            if |items| < 2 {
              FlattenPrefixError(data, i + 1);
              return Err(IndexError(q));
            }
            required := required + [Or(items[1])];
          } else {
            var dicts := DictElements(items);
            required := required + dicts;
          }
        case Facts(d) =>
          required := required + [And(d)];
        case _ =>
          unknown := unknown + [q];
      }
      i := i + 1;
    }
    assert data[..i] == data;
    r := Ok(Flattened(required, unknown));
  }

  /** The inner loop of flatten_facts over a list value: one AND requirement per object element. */
  method DictElements(items: seq<Value>) returns (rs: seq<Requirement>)
    ensures rs == DictItems(items)
  {
    rs := [];
    var j := 0;
    while j < |items|
      invariant 0 <= j <= |items|
      invariant rs == DictItems(items[..j])
    {
      assert items[..j + 1][..j] == items[..j];
      if items[j].Facts? {
        rs := rs + [And(items[j].entries)];
      }
      j := j + 1;
    }
    assert items[..j] == items;
  }

  /** Once a prefix fails, the whole input fails with the same error. */
  lemma FlattenPrefixError(data: seq<(string, Value)>, n: nat)
    requires n <= |data| && Flatten(data[..n]).Err?
    ensures Flatten(data) == Flatten(data[..n])
  {
    FlattenAppend(data[..n], data[n..]);
    assert data[..n] + data[n..] == data;
  }

  // ---------------------------------------------------------------------------
  // select_min_doc_ids, step A: collapse each OR requirement to one fact

  /** The sort key of an alternative: its number of documents, or infinity when it has none. */
  datatype Rank = Finite(n: nat) | Infinite

  function RankOf(docs: seq<DocId>): Rank {
    if docs == [] then Infinite else Finite(|docs|)
  }

  predicate Below(a: Rank, b: Rank) {
    a.Finite? && (b.Infinite? || a.n < b.n)
  }

  /**
   * The position `min` returns: an alternative of least rank, the first such
   * one in key order; an alternative without documents wins only when all are empty.
   */
  function BestIndex(alts: FactDict): (i: nat)
    requires alts != []
    ensures i < |alts|
    ensures forall j :: 0 <= j < |alts| ==> !Below(RankOf(alts[j].1), RankOf(alts[i].1))
    ensures forall j :: 0 <= j < i ==> Below(RankOf(alts[i].1), RankOf(alts[j].1))
    ensures alts[i].1 == [] ==> forall j :: 0 <= j < |alts| ==> alts[j].1 == []
    decreases |alts|
  {
    if |alts| == 1 then 0
    else
      var n := |alts| - 1;
      var k := BestIndex(alts[..n]);
      assert forall j :: 0 <= j < n ==> alts[..n][j] == alts[j];
      if Below(RankOf(alts[n].1), RankOf(alts[k].1)) then n else k
  }

  predicate Collapsible(req: Requirement) {
    req.And? || (req.alternatives.Facts? && req.alternatives.entries != [])
  }

  /** The facts one requirement puts into `all_facts`. */
  function Chosen(req: Requirement): Result<FactDict, Error> {
    match req
    case And(d) => Ok(d)
    case Or(Facts(alts)) => if alts == [] then Err(EmptyAlternatives) else Ok([alts[BestIndex(alts)]])
    case Or(_) => Err(NotAMapping)
  }

  /** `all_facts`: every AND fact and every chosen OR alternative, in requirement order. */
  function CollectFacts(reqs: seq<Requirement>): (r: Result<FactDict, Error>)
    ensures r.Ok? <==> forall i :: 0 <= i < |reqs| ==> Collapsible(reqs[i])
    decreases |reqs|
  {
    if reqs == [] then Ok([])
    else
      var n := |reqs| - 1;
      var prev := CollectFacts(reqs[..n]);
      assert forall i :: 0 <= i < n ==> reqs[..n][i] == reqs[i];
      if prev.Err? then prev
      else
        match Chosen(reqs[n])
        case Ok(fs) => Ok(prev.value + fs)
        case Err(e) => Err(e)
  }

  /** Collecting is compositional: the facts of consecutive requirement lists are concatenated. */
  lemma {:induction false} CollectFactsAppend(a: seq<Requirement>, b: seq<Requirement>)
    requires CollectFacts(a).Ok? && CollectFacts(b).Ok?
    ensures CollectFacts(a + b) == Ok(CollectFacts(a).value + CollectFacts(b).value)
    decreases |b|
  {
    if b == [] {
      assert a + b == a;
      assert CollectFacts(a).value + [] == CollectFacts(a).value;
    } else {
      var n := |b| - 1;
      assert (a + b)[..|a + b| - 1] == a + b[..n];
      assert (a + b)[|a + b| - 1] == b[n];
      assert forall i :: 0 <= i < n ==> b[..n][i] == b[i];
      CollectFactsAppend(a, b[..n]);
      var fa, fb, fs := CollectFacts(a).value, CollectFacts(b[..n]).value, Chosen(b[n]).value;
      assert fa + (fb + fs) == (fa + fb) + fs;
    }
  }

  /** An AND requirement contributes all of its facts, in key order. */
  lemma CollectAnd(d: FactDict)
    ensures CollectFacts([And(d)]) == Ok(d)
  {
    assert [And(d)][..0] == [];
    assert [] + d == d;
  }

  /** Each OR requirement contributes exactly one fact: its best alternative. */
  lemma CollectOr(alts: FactDict)
    requires alts != []
    ensures CollectFacts([Or(Facts(alts))]) == Ok([alts[BestIndex(alts)]])
  {
    assert [Or(Facts(alts))][..0] == [];
    assert [] + [alts[BestIndex(alts)]] == [alts[BestIndex(alts)]];
  }

  // ---------------------------------------------------------------------------
  // select_min_doc_ids, step B: the fact -> document-set table

  function Elems<T>(s: seq<T>): set<T> {
    set x | x in s
  }

  /** `{fact: set(docs) for fact, docs in all_facts if docs}`. */
  function Table(facts: FactDict): (t: map<FactLabel, set<DocId>>)
    ensures forall f :: f in t ==> t[f] != {}
    ensures forall f :: f in t <==> exists i :: 0 <= i < |facts| && facts[i].0 == f && facts[i].1 != []
    decreases |facts|
  {
    if facts == [] then map[]
    else
      var n := |facts| - 1;
      var t := Table(facts[..n]);
      assert forall i :: 0 <= i < n ==> facts[..n][i] == facts[i];
      var (f, docs) := facts[n];
      if docs == [] then t
      else
        assert docs[0] in Elems(docs);
        t[f := Elems(docs)]
  }

  /** A label's documents are those of its last occurrence with a non-empty list. */
  lemma {:induction false} TableLastWins(facts: FactDict, i: nat)
    requires i < |facts| && facts[i].1 != []
    requires forall j :: i < j < |facts| && facts[j].0 == facts[i].0 ==> facts[j].1 == []
    ensures facts[i].0 in Table(facts) && Table(facts)[facts[i].0] == Elems(facts[i].1)
    decreases |facts|
  {
    var n := |facts| - 1;
    var f := facts[i].0;
    if i < n {
      var prefix := facts[..n];
      assert prefix[i] == facts[i];
      forall j | i < j < n && prefix[j].0 == f ensures prefix[j].1 == [] {
        assert prefix[j] == facts[j];
      }
      TableLastWins(prefix, i);
      assert facts[n].0 != f || facts[n].1 == [];
    }
  }

  // ---------------------------------------------------------------------------
  // select_min_doc_ids, step C: greedy cover

  type CoverTable = map<FactLabel, set<DocId>>

  /** The facts among `open` that document `d` supports. */
  function Supporters(table: CoverTable, open: set<FactLabel>, d: DocId): set<FactLabel> {
    set f | f in open && f in table && d in table[f]
  }

  /** The facts none of the chosen documents supports. */
  ghost function Remaining(table: CoverTable, chosen: set<DocId>): set<FactLabel> {
    set f | f in table && table[f] !! chosen
  }

  /** Every document the table mentions. */
  ghost function AllDocs(table: CoverTable): set<DocId> {
    set f, d | f in table && d in table[f] :: d
  }

  /** Every fact of the table has a supporting document among the chosen ones. */
  ghost predicate Covers(table: CoverTable, chosen: set<DocId>) {
    forall f :: f in table ==> !(table[f] !! chosen)
  }

  /** Picking `d` after `chosen` is a greedy step: it covers something new, and no document covers more. */
  ghost predicate GreedyStep(table: CoverTable, chosen: set<DocId>, d: DocId) {
    var open := Remaining(table, chosen);
    Supporters(table, open, d) != {} &&
    forall e :: |Supporters(table, open, e)| <= |Supporters(table, open, d)|
  }

  /** Every pick of the sequence was a greedy step given the picks before it. */
  ghost predicate GreedyRun(table: CoverTable, picks: seq<DocId>) {
    forall k :: 0 <= k < |picks| ==> GreedyStep(table, Elems(picks[..k]), picks[k])
  }

  /** `doc_to_facts`: for every document, the open facts it supports (the nested loops of the source). */
  method DocToFacts(table: CoverTable, open: set<FactLabel>) returns (m: map<DocId, set<FactLabel>>)
    requires open <= table.Keys
    ensures forall d :: d in m <==> Supporters(table, open, d) != {}
    ensures forall d :: d in m ==> m[d] == Supporters(table, open, d)
  {
    m := map[];
    var todo := open;
    while todo != {}
      invariant todo <= open
      invariant forall d :: d in m <==> Supporters(table, open - todo, d) != {}
      invariant forall d :: d in m ==> m[d] == Supporters(table, open - todo, d)
      decreases |todo|
    {
      var f :| f in todo;
      ghost var done := open - todo;
      ghost var m0 := m;
      m := AddToBuckets(m, table[f], f);
      todo := todo - {f};
      assert open - todo == done + {f};
      forall d ensures Supporters(table, open - todo, d) == Supporters(table, done, d) + (if d in table[f] then {f} else {}) {
        SupportersAdd(table, done, f, d);
      }
    }
  }

  /** The bucket of `d` in a map standing for a defaultdict(set): empty when `d` has none yet. */
  function Bucket(m: map<DocId, set<FactLabel>>, d: DocId): set<FactLabel> {
    if d in m then m[d] else {}
  }

  /** `r` is `m` with `f` added to the bucket of every document of `added`. */
  ghost predicate Bucketed(r: map<DocId, set<FactLabel>>, m: map<DocId, set<FactLabel>>, added: set<DocId>, f: FactLabel) {
    && r.Keys == m.Keys + added
    && forall d :: Bucket(r, d) == Bucket(m, d) + (if d in added then {f} else {})
  }

  /** `doc_to_facts[doc].add(fact)` for every `doc` of `docs`, on a map that stands for a defaultdict(set). */
  method AddToBuckets(m: map<DocId, set<FactLabel>>, docs: set<DocId>, f: FactLabel) returns (r: map<DocId, set<FactLabel>>)
    ensures forall d :: d in r <==> d in m || d in docs
    ensures forall d :: d in r ==> r[d] == (if d in m then m[d] else {}) + (if d in docs then {f} else {})
  {
    r := m;
    var todo := docs;
    while todo != {}
      invariant todo <= docs
      invariant Bucketed(r, m, docs - todo, f)
      decreases |todo|
    {
      var d :| d in todo;
      TakeOne(docs, todo, d);
      BucketStep(r, m, docs - todo, f, d);
      r := r[d := Bucket(r, d) + {f}];
      todo := todo - {d};
    }
    BucketedDone(r, m, docs, f);
  }

  lemma TakeOne(docs: set<DocId>, todo: set<DocId>, d: DocId)
    requires todo <= docs && d in todo
    ensures docs - (todo - {d}) == (docs - todo) + {d} && d !in docs - todo
  {
  }

  lemma BucketStep(r: map<DocId, set<FactLabel>>, m: map<DocId, set<FactLabel>>, seen: set<DocId>, f: FactLabel, d: DocId)
    requires Bucketed(r, m, seen, f) && d !in seen
    ensures Bucketed(r[d := Bucket(r, d) + {f}], m, seen + {d}, f)
  {
    var r' := r[d := Bucket(r, d) + {f}];
    assert r'.Keys == r.Keys + {d};
    forall e ensures Bucket(r', e) == Bucket(m, e) + (if e in seen + {d} then {f} else {}) {
      if e != d {
        assert Bucket(r', e) == Bucket(r, e);
      }
    }
  }

  lemma BucketedDone(r: map<DocId, set<FactLabel>>, m: map<DocId, set<FactLabel>>, docs: set<DocId>, f: FactLabel)
    requires Bucketed(r, m, docs - {}, f)
    ensures forall d :: d in r <==> d in m || d in docs
    ensures forall d :: d in r ==> r[d] == (if d in m then m[d] else {}) + (if d in docs then {f} else {})
  {
    assert docs - {} == docs;
    forall d | d in r ensures r[d] == (if d in m then m[d] else {}) + (if d in docs then {f} else {}) {
      assert Bucket(r, d) == r[d];
    }
  }

  lemma SupportersAdd(table: CoverTable, done: set<FactLabel>, f: FactLabel, d: DocId)
    requires f in table
    ensures Supporters(table, done + {f}, d) == Supporters(table, done, d) + (if d in table[f] then {f} else {})
  {
  }

  /** `max(doc_to_facts.items(), key=...)`: a document supporting the most open facts, scanning in map order. */
  method MostSupported(m: map<DocId, set<FactLabel>>) returns (best: DocId)
    requires m.Keys != {}
    ensures best in m
    ensures forall d :: d in m ==> |m[d]| <= |m[best]|
  {
    var todo := m.Keys;
    best :| best in todo;
    todo := todo - {best};
    while todo != {}
      invariant todo <= m.Keys && best in m
      invariant forall d :: d in m && d !in todo ==> |m[d]| <= |m[best]|
      decreases |todo|
    {
      var d :| d in todo;
      if |m[d]| > |m[best]| {
        best := d;
      }
      todo := todo - {d};
    }
  }

  lemma RemoveNonEmpty<T>(a: set<T>, b: set<T>)
    requires b <= a && b != {}
    ensures |a - b| < |a|
  {
    assert a == (a - b) + b;
    assert (a - b) !! b;
  }

  lemma SubsetFull<T>(s: set<T>, t: set<T>)
    requires s <= t && |t| <= |s|
    ensures s == t
  {
    assert s == t - (t - s);
    if s != t {
      RemoveNonEmpty(t, t - s);
    }
  }

  /**
   * The `while uncovered_facts` loop. It returns the selected documents and,
   * as a ghost, the order in which they were picked.
   */
  method CoverGreedily(table: CoverTable) returns (selected: set<DocId>, ghost picks: seq<DocId>)
    requires forall f :: f in table ==> table[f] != {}
    ensures Covers(table, selected)
    ensures selected <= AllDocs(table)
    ensures selected == Elems(picks) && GreedyRun(table, picks)
    ensures |selected| == |picks| <= |table|
  {
    selected, picks := {}, [];
    var uncovered := table.Keys;
    assert uncovered == Remaining(table, selected);
    while uncovered != {}
      invariant CoverState(table, selected, picks, uncovered)
      decreases |uncovered|
    {
      var docToFacts := DocToFacts(table, uncovered);
      var some := SomeSupporter(table, uncovered);
      assert some in docToFacts;
      var best := MostSupported(docToFacts);
      GreedyIteration(table, selected, picks, uncovered, docToFacts, best);
      picks := picks + [best];
      selected := selected + {best};
      uncovered := uncovered - docToFacts[best];
    }
    forall f | f in table ensures !(table[f] !! selected) {
      assert f !in Remaining(table, selected);
    }
  }

  /** The loop invariant of the cover loop: the open facts, the picks so far, and the budget left. */
  ghost predicate CoverState(table: CoverTable, selected: set<DocId>, picks: seq<DocId>, uncovered: set<FactLabel>) {
    && uncovered == Remaining(table, selected)
    && selected == Elems(picks) && GreedyRun(table, picks)
    && selected <= AllDocs(table)
    && |selected| == |picks| && |picks| + |uncovered| <= |table|
  }

  /** One pass of the cover loop keeps its invariant and closes at least one open fact. */
  lemma GreedyIteration(table: CoverTable, selected: set<DocId>, picks: seq<DocId>, uncovered: set<FactLabel>,
                        m: map<DocId, set<FactLabel>>, best: DocId)
    requires CoverState(table, selected, picks, uncovered)
    requires forall d :: d in m <==> Supporters(table, uncovered, d) != {}
    requires forall d :: d in m ==> m[d] == Supporters(table, uncovered, d)
    requires best in m && forall d :: d in m ==> |m[d]| <= |m[best]|
    ensures CoverState(table, selected + {best}, picks + [best], uncovered - m[best])
    ensures |uncovered - m[best]| < |uncovered|
  {
    var gained := m[best];
    PickIsGreedy(table, selected, m, best);
    var g :| g in gained;
    assert best in table[g] && g in uncovered;
    assert best in AllDocs(table);
    RemoveNonEmpty(uncovered, gained);
    GreedyExtend(table, picks, best);
    RemainingAfter(table, selected, best);
  }

  /** While some fact is open, some document supports one (every fact of the table has a document). */
  lemma SomeSupporter(table: CoverTable, open: set<FactLabel>) returns (d: DocId)
    requires open != {} && open <= table.Keys
    requires forall f :: f in table ==> table[f] != {}
    ensures Supporters(table, open, d) != {}
  {
    var f :| f in open;
    d :| d in table[f];
    assert f in Supporters(table, open, d);
  }

  /** The document `max` returns from `doc_to_facts` is a greedy step. */
  lemma PickIsGreedy(table: CoverTable, chosen: set<DocId>, m: map<DocId, set<FactLabel>>, best: DocId)
    requires forall d :: d in m <==> Supporters(table, Remaining(table, chosen), d) != {}
    requires forall d :: d in m ==> m[d] == Supporters(table, Remaining(table, chosen), d)
    requires best in m && forall d :: d in m ==> |m[d]| <= |m[best]|
    ensures GreedyStep(table, chosen, best)
  {
    var open := Remaining(table, chosen);
    forall e ensures |Supporters(table, open, e)| <= |Supporters(table, open, best)| {
      if e !in m {
        assert Supporters(table, open, e) == {};
      }
    }
  }

  /** A greedy run extended by a greedy step is a greedy run. */
  lemma GreedyExtend(table: CoverTable, picks: seq<DocId>, d: DocId)
    requires GreedyRun(table, picks) && GreedyStep(table, Elems(picks), d)
    ensures GreedyRun(table, picks + [d])
    ensures Elems(picks + [d]) == Elems(picks) + {d}
  {
    var p := picks + [d];
    forall k | 0 <= k < |p| ensures GreedyStep(table, Elems(p[..k]), p[k]) {
      if k < |picks| {
        assert p[..k] == picks[..k];
      } else {
        assert p[..k] == picks;
      }
    }
  }

  /** Choosing `d` closes exactly the open facts that `d` supports. */
  lemma RemainingAfter(table: CoverTable, chosen: set<DocId>, d: DocId)
    ensures Remaining(table, chosen + {d}) == Remaining(table, chosen) - Supporters(table, Remaining(table, chosen), d)
  {
  }

  /**
   * select_min_doc_ids: collapse the OR requirements in a loop that extends
   * `all_facts`, build the table, then cover it greedily.
   */
  method SelectMinDocIds(reqs: seq<Requirement>) returns (r: Result<set<DocId>, Error>, ghost picks: seq<DocId>)
    ensures CollectFacts(reqs).Err? ==> r == Err(CollectFacts(reqs).error)
    ensures CollectFacts(reqs).Ok? ==> r.Ok?
    ensures r.Ok? ==>
      var table := Table(CollectFacts(reqs).value);
      && Covers(table, r.value)
      && r.value <= AllDocs(table)
      && r.value == Elems(picks) && GreedyRun(table, picks)
      && |r.value| <= |table|
  {
    var allFacts: FactDict := [];
    var i := 0;
    while i < |reqs|
      invariant 0 <= i <= |reqs|
      invariant CollectFacts(reqs[..i]) == Ok(allFacts)
    {
      assert reqs[..i + 1][..i] == reqs[..i];
      match reqs[i] {
        case And(d) =>
          allFacts := allFacts + d;
        case Or(Facts(alts)) =>
          if alts == [] {
            CollectPrefixError(reqs, i + 1);
            return Err(EmptyAlternatives), [];
          }
          allFacts := allFacts + [alts[BestIndex(alts)]];
        case Or(_) =>
          CollectPrefixError(reqs, i + 1);
          return Err(NotAMapping), [];
      }
      i := i + 1;
    }
    assert reqs[..i] == reqs;
    var table := Table(allFacts);
    var selected;
    selected, picks := CoverGreedily(table);
    r := Ok(selected);
  }

  /** Once a prefix of the requirements fails to collapse, the whole list fails with the same error. */
  lemma {:induction false} CollectPrefixError(reqs: seq<Requirement>, n: nat)
    requires n <= |reqs| && CollectFacts(reqs[..n]).Err?
    ensures CollectFacts(reqs) == CollectFacts(reqs[..n])
    decreases |reqs| - n
  {
    if n < |reqs| {
      assert reqs[..n + 1][..n] == reqs[..n];
      CollectPrefixError(reqs, n + 1);
    } else {
      assert reqs[..n] == reqs;
    }
  }

  // ---------------------------------------------------------------------------
  // Scenarios

  /** A topic whose facts all have empty document lists leaves nothing to cover. */
  lemma {:induction false} UnsupportedFactsGiveEmptyTable(facts: FactDict)
    requires forall i :: 0 <= i < |facts| ==> facts[i].1 == []
    ensures Table(facts) == map[]
  {
    var t := Table(facts);
    assert forall f :: f !in t;
    assert t.Keys == {};
  }

  /**
   * With an empty requirement list, or only facts without documents, there is
   * no document to select: the selection, a subset of AllDocs, is empty.
   */
  lemma NothingToSelect(facts: FactDict)
    requires forall i :: 0 <= i < |facts| ==> facts[i].1 == []
    ensures AllDocs(Table(facts)) == {}
  {
    UnsupportedFactsGiveEmptyTable(facts);
  }

  /** The table of the scenario A: [doc1, doc2], B: [doc2, doc3]. */
  lemma TwoFactsTable()
    ensures Table([("A", ["doc1", "doc2"]), ("B", ["doc2", "doc3"])])
            == map["A" := {"doc1", "doc2"}, "B" := {"doc2", "doc3"}]
  {
    var facts: FactDict := [("A", ["doc1", "doc2"]), ("B", ["doc2", "doc3"])];
    assert facts[..1] == [("A", ["doc1", "doc2"])];
    assert facts[..1][..0] == [];
    assert Elems(["doc1", "doc2"]) == {"doc1", "doc2"};
    assert Elems(["doc2", "doc3"]) == {"doc2", "doc3"};
  }

  /** On A: {doc1, doc2}, B: {doc2, doc3}, every complete greedy run selects doc2 alone. */
  lemma TwoOverlappingFacts(picks: seq<DocId>)
    requires GreedyRun(map["A" := {"doc1", "doc2"}, "B" := {"doc2", "doc3"}], picks)
    requires Covers(map["A" := {"doc1", "doc2"}, "B" := {"doc2", "doc3"}], Elems(picks))
    ensures picks == ["doc2"]
  {
    var table := map["A" := {"doc1", "doc2"}, "B" := {"doc2", "doc3"}];
    assert !(table["A"] !! Elems(picks));
    assert Elems(picks[..0]) == {};
    FirstPickIsDoc2(picks[0]);
    if |picks| > 1 {
      assert Elems(picks[..1]) == {"doc2"};
      NothingAfterDoc2(picks[1]);
    }
  }

  lemma FirstPickIsDoc2(first: DocId)
    requires GreedyStep(map["A" := {"doc1", "doc2"}, "B" := {"doc2", "doc3"}], {}, first)
    ensures first == "doc2"
  {
    var table := map["A" := {"doc1", "doc2"}, "B" := {"doc2", "doc3"}];
    var all := Remaining(table, {});
    assert all == {"A", "B"};
    assert Supporters(table, all, "doc2") == {"A", "B"};
    var s := Supporters(table, all, first);
    assert |s| >= 2;
    SubsetFull(s, {"A", "B"});
    assert first in table["A"] && first in table["B"];
  }

  lemma NothingAfterDoc2(next: DocId)
    ensures !GreedyStep(map["A" := {"doc1", "doc2"}, "B" := {"doc2", "doc3"}], {"doc2"}, next)
  {
    var table := map["A" := {"doc1", "doc2"}, "B" := {"doc2", "doc3"}];
    assert Remaining(table, {"doc2"}) == {};
  }
}
