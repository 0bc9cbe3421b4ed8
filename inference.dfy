/**
 * The decision-tree walker of Lab 5: a table of nodes, each a dictionary
 * holding its id under `node`, a question and answer keys leading to
 * further ids, or a `classification`. The walker asks questions until it
 * reaches a classification, reading one answer per question from a finite
 * list of input lines.
 */
module Inference {
  import opened Util

  /**
   * One table entry: a dictionary from keys to strings, in key order. A
   * dictionary holds each key once (`DistinctKeys`); on such an entry the
   * first match of `Lookup` is the only one (`LookupUnique`).
   */
  type Entry = seq<(string, string)>

  /** No key occurs twice, as in a Python dictionary. */
  predicate DistinctKeys(e: Entry) {
    forall i, j | 0 <= i < j < |e| :: e[i].0 != e[j].0
  }

  /** The keys of an entry, in order. */
  function Keys(e: Entry): seq<string> {
    if e == [] then [] else [e[0].0] + Keys(e[1..])
  }

  /** `e.get(k)`: the value stored under `k`, if any. */
  function Lookup(e: Entry, k: string): Option<string> {
    if e == [] then None else if e[0].0 == k then Some(e[0].1) else Lookup(e[1..], k)
  }

  /** `k in e`: a lookup finds a value exactly under the keys of the entry. */
  lemma {:induction false} LookupKeys(e: Entry, k: string)
    ensures Lookup(e, k).Some? <==> k in Keys(e)
  {
    if e != [] {
      LookupKeys(e[1..], k);
      assert Keys(e) == [e[0].0] + Keys(e[1..]);
    }
  }

  /** With distinct keys, a lookup finds exactly the pair stored in the entry. */
  lemma {:induction false} LookupUnique(e: Entry, k: string, v: string)
    requires DistinctKeys(e)
    ensures Lookup(e, k) == Some(v) <==> (k, v) in e
  {
    if e != [] {
      assert DistinctKeys(e[1..]) by {
        forall i, j | 0 <= i < j < |e| - 1 ensures e[1..][i].0 != e[1..][j].0 {
          assert e[1..][i] == e[i + 1] && e[1..][j] == e[j + 1];
        }
      }
      LookupUnique(e[1..], k, v);
      if (k, v) in e && e[0].0 == k {
        var i :| 0 <= i < |e| && e[i] == (k, v);
        assert i == 0;
      }
      assert (k, v) in e <==> (k, v) == e[0] || (k, v) in e[1..];
    }
  }

  /** The value under a key that is present lies in the entry. */
  lemma {:induction false} LookupFinds(e: Entry, k: string)
    requires Lookup(e, k).Some?
    ensures (k, Lookup(e, k).value) in e
  {
    if e[0].0 != k {
      LookupFinds(e[1..], k);
    }
  }

  /** The id an entry carries under `node`. */
  function Id(e: Entry): Option<string> {
    Lookup(e, "node")
  }

  // ----- __init__ -----

  /**
   * `{entry['node']: entry for entry in table}`, or `None` where an entry
   * has no `node` key and the lookup raises `KeyError`.
   */
  function Index(table: seq<Entry>): Option<map<string, Entry>> {
    if table == [] then Some(map[])
    else
      match Index(table[..|table| - 1])
      case None => None
      case Some(m) =>
        match Id(table[|table| - 1])
        case None => None
        case Some(id) => Some(m[id := table[|table| - 1]])
  }

  /** The index exists exactly when every entry has an id. */
  lemma {:induction false} IndexDefined(table: seq<Entry>)
    ensures Index(table).Some? <==> forall i | 0 <= i < |table| :: Id(table[i]).Some?
  {
    if table != [] {
      var init := table[..|table| - 1];
      IndexDefined(init);
      assert forall i | 0 <= i < |table| - 1 :: init[i] == table[i];
    }
  }

  /** The index is filed under exactly the ids of the table. */
  lemma {:induction false} IndexKeys(table: seq<Entry>)
    requires Index(table).Some?
    ensures forall k :: k in Index(table).value <==> exists i | 0 <= i < |table| :: Id(table[i]) == Some(k)
  {
    if table != [] {
      var init := table[..|table| - 1];
      var last := table[|table| - 1];
      IndexKeys(init);
      var m := Index(init).value;
      assert Index(table).value == m[Id(last).value := last];
      forall k ensures k in Index(table).value <==> exists i | 0 <= i < |table| :: Id(table[i]) == Some(k) {
        if k in m {
          var i :| 0 <= i < |init| && Id(init[i]) == Some(k);
          assert Id(table[i]) == Some(k);
        } else if k == Id(last).value {
          assert Id(table[|table| - 1]) == Some(k);
        }
        if exists i | 0 <= i < |table| :: Id(table[i]) == Some(k) {
          var i :| 0 <= i < |table| && Id(table[i]) == Some(k);
          if i < |table| - 1 {
            assert Id(init[i]) == Some(k);
          }
        }
      }
    }
  }

  /**
   * Under the id of entry `i` the index holds entry `i` itself when no
   * later entry carries that id: a later duplicate replaces an earlier one.
   */
  lemma {:induction false} IndexLaterWins(table: seq<Entry>, i: int)
    requires Index(table).Some? && 0 <= i < |table|
    requires forall j | i < j < |table| :: Id(table[j]) != Id(table[i])
    ensures Id(table[i]).Some? && Id(table[i]).value in Index(table).value
    ensures Index(table).value[Id(table[i]).value] == table[i]
  {
    var init := table[..|table| - 1];
    var last := table[|table| - 1];
    assert Index(init).Some? && Id(last).Some?;
    if i < |table| - 1 {
      assert init[i] == table[i];
      IndexLaterWins(init, i);
      assert Id(last) != Id(table[i]);
    }
  }

  /** Every entry of the index carries the id it is filed under. */
  lemma {:induction false} IndexedById(table: seq<Entry>)
    requires Index(table).Some?
    ensures forall k | k in Index(table).value :: Id(Index(table).value[k]) == Some(k)
  {
    if table != [] {
      IndexedById(table[..|table| - 1]);
    }
  }

  // ----- solve -----

  /** Whitespace as Python's `str.isspace` defines it. */
  predicate IsSpace(c: char) {
    || c == ' ' || '\t' <= c <= '\r' || '\U{1C}' <= c <= '\U{1F}' || c == '\U{85}' || c == '\U{A0}'
    || c == '\U{1680}' || '\U{2000}' <= c <= '\U{200A}' || c == '\U{2028}' || c == '\U{2029}'
    || c == '\U{202F}' || c == '\U{205F}' || c == '\U{3000}'
  }

  /** `str.strip()`: drops whitespace at both ends. */
  function Strip(s: string): (r: string)
    ensures |r| <= |s|
    ensures r != [] ==> !IsSpace(r[0]) && !IsSpace(r[|r| - 1])
    decreases |s|
  {
    if s == [] then []
    else if IsSpace(s[0]) then Strip(s[1..])
    else if IsSpace(s[|s| - 1]) then Strip(s[..|s| - 1])
    else s
  }

  /** `str.lower()` on one character, for the letters A to Z. */
  function LowerChar(c: char): char {
    if 'A' <= c <= 'Z' then (c as int + 32) as char else c
  }

  /** `str.lower()`, letter by letter. */
  function Lower(s: string): (r: string)
    ensures |r| == |s| && forall i | 0 <= i < |s| :: r[i] == LowerChar(s[i])
  {
    if s == [] then [] else [LowerChar(s[0])] + Lower(s[1..])
  }

  /** How an answer line is read: stripped, then lower-cased. */
  function Normalize(s: string): string {
    Lower(Strip(s))
  }

  /** A stripped string is its own strip. */
  lemma StripStripped(s: string)
    requires s == [] || (!IsSpace(s[0]) && !IsSpace(s[|s| - 1]))
    ensures Strip(s) == s
  {
  }

  /** Lower-casing keeps whitespace where it is. */
  lemma LowerKeepsSpace(c: char)
    ensures IsSpace(LowerChar(c)) <==> IsSpace(c)
  {
  }

  /** Reading an answer twice changes nothing: a normalized answer is stripped and has no capitals. */
  lemma NormalizeIdempotent(s: string)
    ensures Normalize(Normalize(s)) == Normalize(s)
    ensures forall i | 0 <= i < |Normalize(s)| :: !('A' <= Normalize(s)[i] <= 'Z')
  {
    var t := Strip(s);
    var n := Lower(t);
    if n != [] {
      LowerKeepsSpace(t[0]);
      LowerKeepsSpace(t[|t| - 1]);
    }
    StripStripped(n);
    assert Lower(n) == n;
  }

  /** `[k for k in node.keys() if k not in ('node', 'question')]`. */
  function Options(keys: seq<string>): seq<string> {
    if keys == [] then []
    else if keys[0] == "node" || keys[0] == "question" then Options(keys[1..])
    else [keys[0]] + Options(keys[1..])
  }

  /**
   * The listed options are the keys other than `node` and `question`, in
   * the order of the keys: `Options(keys)` is the subsequence they form.
   */
  lemma {:induction false} OptionsExact(keys: seq<string>)
    ensures forall k :: k in Options(keys) <==> k in keys && k != "node" && k != "question"
    ensures |Options(keys)| <= |keys|
    ensures keys != [] && keys[0] != "node" && keys[0] != "question" ==> Options(keys) == [keys[0]] + Options(keys[1..])
    ensures keys != [] && (keys[0] == "node" || keys[0] == "question") ==> Options(keys) == Options(keys[1..])
  {
    if keys != [] {
      OptionsExact(keys[1..]);
      assert forall k :: k in keys <==> k == keys[0] || k in keys[1..];
    }
  }

  /** What `solve` prints or asks, in order. */
  datatype Event =
    | Asked(question: string, options: seq<string>)  // the prompt passed to `input_func`
    | Invalid(options: seq<string>)                  // "Invalid answer. Please choose from ..."
    | UnknownNode(id: string)                        // "[Error] Unknown node ..."
    | Classified(result: string)                      // "Result: ..."

  /** How `solve` ends: it returns a classification or `None`, or the input runs out (`EOFError`). */
  datatype Outcome = Returned(value: Option<string>) | OutOfInput

  /** The question a node asks. */
  function Question(node: Entry): string {
    match Lookup(node, "question")
    case Some(q) => q
    case None => "[No question specified]"
  }

  /** The walk of `solve` from node `current`, reading `answers` in turn: how it ends and what it prints. */
  function Run(nodes: map<string, Entry>, current: string, answers: seq<string>): (Outcome, seq<Event>)
    decreases |answers|
  {
    if current !in nodes then (Returned(None), [UnknownNode(current)])
    else
      var node := nodes[current];
      match Lookup(node, "classification")
      case Some(c) => (Returned(Some(c)), [Classified(c)])
      case None =>
        var asked := Asked(Question(node), Options(Keys(node)));
        if answers == [] then (OutOfInput, [asked])
        else
          match Lookup(node, Normalize(answers[0]))
          case None =>
            var rest := Run(nodes, current, answers[1..]);
            (rest.0, [asked, Invalid(Options(Keys(node)))] + rest.1)
          case Some(next) =>
            var rest := Run(nodes, next, answers[1..]);
            (rest.0, [asked] + rest.1)
  }

  /** An answer that is no key of the node costs one line and asks the same question again. */
  lemma InvalidAsksAgain(nodes: map<string, Entry>, current: string, answer: string, rest: seq<string>)
    requires current in nodes && Lookup(nodes[current], "classification").None?
    requires Lookup(nodes[current], Normalize(answer)).None?
    ensures Run(nodes, current, [answer] + rest).0 == Run(nodes, current, rest).0
  {
    assert ([answer] + rest)[1..] == rest;
  }

  /** A leaf returns its classification before any question; an unknown id returns `None`, also reading nothing. */
  lemma StopsWithoutReading(nodes: map<string, Entry>, current: string, answers: seq<string>)
    requires current !in nodes || Lookup(nodes[current], "classification").Some?
    ensures Run(nodes, current, answers) == Run(nodes, current, [])
    ensures Run(nodes, current, answers).0 ==
      if current !in nodes then Returned(None) else Returned(Lookup(nodes[current], "classification"))
  {
  }

  /** A string without whitespace at its ends or capitals reads as itself. */
  lemma NormalizePlain(s: string)
    requires s == [] || (!IsSpace(s[0]) && !IsSpace(s[|s| - 1]))
    requires forall i | 0 <= i < |s| :: !('A' <= s[i] <= 'Z')
    ensures Normalize(s) == s
  {
    StripStripped(s);
  }

  /**
   * The answer `node` is not listed among the options, yet at a node filed
   * under its own id (as `IndexedById` shows every indexed node is) it is
   * accepted and leads back to the same node.
   */
  lemma NodeAnswerStays(nodes: map<string, Entry>, current: string, rest: seq<string>)
    requires current in nodes && Id(nodes[current]) == Some(current)
    requires Lookup(nodes[current], "classification").None?
    ensures "node" !in Options(Keys(nodes[current]))
    ensures Run(nodes, current, ["node"] + rest).0 == Run(nodes, current, rest).0
  {
    hide Normalize, Options, Strip, Lower;
    OptionsExact(Keys(nodes[current]));
    NormalizePlain("node");
    var answers := ["node"] + rest;
    assert answers[0] == "node" && answers[1..] == rest;
  }

  /** The node ids `ids` follow answer keys `keys` one step each: `ids[i + 1]` is stored under `keys[i]` in node `ids[i]`. */
  ghost predicate Follows(nodes: map<string, Entry>, ids: seq<string>, keys: seq<string>) {
    && |ids| == |keys| + 1
    && forall i | 0 <= i < |keys| :: ids[i] in nodes && Lookup(nodes[ids[i]], keys[i]) == Some(ids[i + 1])
  }

  /** One more step in front of a chain. */
  lemma FollowsCons(nodes: map<string, Entry>, id: string, key: string, ids: seq<string>, keys: seq<string>)
    requires Follows(nodes, ids, keys) && id in nodes && Lookup(nodes[id], key) == Some(ids[0])
    ensures Follows(nodes, [id] + ids, [key] + keys)
  {
    var ids', keys' := [id] + ids, [key] + keys;
    forall i | 0 <= i < |keys'| ensures ids'[i] in nodes && Lookup(nodes[ids'[i]], keys'[i]) == Some(ids'[i + 1]) {
      if i > 0 {
        assert ids'[i] == ids[i - 1] && keys'[i] == keys[i - 1] && ids'[i + 1] == ids[i];
      }
    }
  }

  /**
   * A returned classification is the classification of a node reached from
   * the start node by a chain of answer keys, each stored in the node before.
   */
  lemma {:induction false} ResultReached(nodes: map<string, Entry>, current: string, answers: seq<string>, c: string)
    returns (ids: seq<string>, keys: seq<string>)
    requires Run(nodes, current, answers).0 == Returned(Some(c))
    ensures Follows(nodes, ids, keys) && ids[0] == current
    ensures ids[|ids| - 1] in nodes && Lookup(nodes[ids[|ids| - 1]], "classification") == Some(c)
    decreases |answers|
  {
    var node := nodes[current];
    if Lookup(node, "classification").Some? {
      ids, keys := [current], [];
    } else {
      assert answers != [];
      var a := Normalize(answers[0]);
      var next := Lookup(node, a);
      if next.None? {
        assert Run(nodes, current, answers).0 == Run(nodes, current, answers[1..]).0;
        ids, keys := ResultReached(nodes, current, answers[1..], c);
      } else {
        assert Run(nodes, current, answers).0 == Run(nodes, next.value, answers[1..]).0;
        var ids', keys' := ResultReached(nodes, next.value, answers[1..], c);
        FollowsCons(nodes, current, a, ids', keys');
        ids, keys := [current] + ids', [a] + keys';
      }
    }
  }

  /**
   * The answer `question` is not listed among the options either, yet the
   * membership test accepts it and the walk moves to the question text as
   * if it were an id; where no node has that id, the walk ends with `None`.
   */
  lemma QuestionAnswerLost(nodes: map<string, Entry>, current: string, rest: seq<string>)
    requires current in nodes && Lookup(nodes[current], "classification").None?
    requires Lookup(nodes[current], "question").Some? && Lookup(nodes[current], "question").value !in nodes
    ensures "question" !in Options(Keys(nodes[current]))
    ensures Run(nodes, current, ["question"] + rest).0 == Returned(None)
  {
    hide Normalize, Options, Strip, Lower;
    OptionsExact(Keys(nodes[current]));
    NormalizePlain("question");
    var answers := ["question"] + rest;
    assert answers[0] == "question" && answers[1..] == rest;
  }

  /**
   * The walk as the comment on the options describes it: only a listed
   * option is accepted, and any other answer asks the question again.
   */
  function RunChecked(nodes: map<string, Entry>, current: string, answers: seq<string>): (Outcome, seq<Event>)
    decreases |answers|
  {
    if current !in nodes then (Returned(None), [UnknownNode(current)])
    else
      var node := nodes[current];
      match Lookup(node, "classification")
      case Some(c) => (Returned(Some(c)), [Classified(c)])
      case None =>
        var options := Options(Keys(node));
        var asked := Asked(Question(node), options);
        if answers == [] then (OutOfInput, [asked])
        else
          var answer := Normalize(answers[0]);
          match if answer in options then Lookup(node, answer) else None
          case None =>
            var rest := RunChecked(nodes, current, answers[1..]);
            (rest.0, [asked, Invalid(options)] + rest.1)
          case Some(next) =>
            var rest := RunChecked(nodes, next, answers[1..]);
            (rest.0, [asked] + rest.1)
  }

  /** Every option of every question node names a node of the index. */
  ghost predicate Closed(nodes: map<string, Entry>) {
    forall k, o | k in nodes && Lookup(nodes[k], "classification").None? && o in Options(Keys(nodes[k])) ::
      Lookup(nodes[k], o).Some? && Lookup(nodes[k], o).value in nodes
  }

  /** In a closed index the checked walk from a node never meets an unknown id. */
  lemma {:induction false} ClosedNeverUnknown(nodes: map<string, Entry>, current: string, answers: seq<string>)
    requires Closed(nodes) && current in nodes
    ensures RunChecked(nodes, current, answers).0 != Returned(None)
    decreases |answers|
  {
    var node := nodes[current];
    if Lookup(node, "classification").None? && answers != [] {
      var answer := Normalize(answers[0]);
      if answer in Options(Keys(node)) {
        ClosedNeverUnknown(nodes, Lookup(node, answer).value, answers[1..]);
      } else {
        ClosedNeverUnknown(nodes, current, answers[1..]);
      }
    }
  }

  /** Where no answer reads as `node` or `question`, the walk as written and the checked walk agree. */
  lemma {:induction false} RunCheckedAgrees(nodes: map<string, Entry>, current: string, answers: seq<string>)
    requires forall i | 0 <= i < |answers| :: Normalize(answers[i]) != "node" && Normalize(answers[i]) != "question"
    ensures RunChecked(nodes, current, answers) == Run(nodes, current, answers)
    decreases |answers|
  {
    if current in nodes && Lookup(nodes[current], "classification").None? && answers != [] {
      var node := nodes[current];
      var answer := Normalize(answers[0]);
      OptionsExact(Keys(node));
      LookupKeys(node, answer);
      assert answer in Options(Keys(node)) <==> Lookup(node, answer).Some?;
      assert forall i | 0 <= i < |answers| - 1 :: answers[1..][i] == answers[i + 1];
      var next := Lookup(node, answer);
      RunCheckedAgrees(nodes, if next.None? then current else next.value, answers[1..]);
    }
  }

  /**
   * From node `id` every run of at most `n` listed answers reaches a node
   * with a classification.
   */
  ghost predicate LeafWithin(nodes: map<string, Entry>, id: string, n: nat)
    decreases n
  {
    && id in nodes
    && (|| Lookup(nodes[id], "classification").Some?
        || (&& n > 0
            && forall o | o in Options(Keys(nodes[id])) ::
                 Lookup(nodes[id], o).Some? && LeafWithin(nodes, Lookup(nodes[id], o).value, n - 1)))
  }

  /** Every answer the walk reads is an option listed at the node it is read at. */
  ghost predicate Listed(nodes: map<string, Entry>, current: string, answers: seq<string>)
    decreases |answers|
  {
    || answers == [] || current !in nodes || Lookup(nodes[current], "classification").Some?
    || (&& Normalize(answers[0]) in Options(Keys(nodes[current]))
        && Lookup(nodes[current], Normalize(answers[0])).Some?
        && Listed(nodes, Lookup(nodes[current], Normalize(answers[0])).value, answers[1..]))
  }

  /**
   * Within `n` listed answers the walk returns a classification, and the
   * answers after the first `n` are never read.
   */
  lemma {:induction false} FinishesWithin(nodes: map<string, Entry>, current: string, answers: seq<string>, n: nat)
    requires LeafWithin(nodes, current, n) && Listed(nodes, current, answers) && n <= |answers|
    ensures Run(nodes, current, answers).0.Returned? && Run(nodes, current, answers).0.value.Some?
    ensures Run(nodes, current, answers) == Run(nodes, current, answers[..n])
    decreases n
  {
    hide Normalize, Options, Keys, Question;
    var node := nodes[current];
    if Lookup(node, "classification").None? {
      var answer := Normalize(answers[0]);
      var next := Lookup(node, answer).value;
      assert answers[..n][0] == answers[0] && answers[..n][1..] == answers[1..][..n - 1];
      FinishesWithin(nodes, next, answers[1..], n - 1);
    }
  }

  /** The walker of `DecisionTreeSolver`: its index and where the walk starts. */
  class DecisionTreeSolver {
    const nodes: map<string, Entry>
    const startNode: string

    /** A walker over an index already built. */
    constructor (nodes: map<string, Entry>, startNode: string)
      ensures this.nodes == nodes && this.startNode == startNode
    {
      this.nodes := nodes;
      this.startNode := startNode;
    }

    /**
     * `__init__`: indexes the table, or gives `None` where an entry has no
     * `node` key and the comprehension raises `KeyError`.
     */
    static method Create(table: seq<Entry>, startNode: string) returns (r: Option<DecisionTreeSolver>)
      ensures r.None? <==> exists i | 0 <= i < |table| :: Id(table[i]).None?
      ensures r.Some? ==> fresh(r.value) && Index(table) == Some(r.value.nodes) && r.value.startNode == startNode
    {
      IndexDefined(table);
      var index := Index(table);
      if index.None? {
        return None;
      }
      var solver := new DecisionTreeSolver(index.value, startNode);
      return Some(solver);
    }

    /**
     * `solve`, reading the lines of `answers` in turn: the walk as `Run`
     * describes it, with every prompt and message in `log`.
     */
    method Solve(answers: seq<string>) returns (outcome: Outcome, log: seq<Event>)
      ensures outcome == Run(nodes, startNode, answers).0 && log == Run(nodes, startNode, answers).1
    {
      hide Normalize, Options, Question, Lookup, Keys;
      var current := startNode;
      var i := 0;
      log := [];
      assert answers[i..] == answers;
      assert log + Run(nodes, current, answers[i..]).1 == Run(nodes, current, answers[i..]).1;
      while true
        invariant 0 <= i <= |answers|
        invariant Run(nodes, startNode, answers).0 == Run(nodes, current, answers[i..]).0
        invariant Run(nodes, startNode, answers).1 == log + Run(nodes, current, answers[i..]).1
        decreases |answers| - i
      {
        if current !in nodes {
          log := log + [UnknownNode(current)];
          return Returned(None), log;
        }
        var node := nodes[current];
        var classification := Lookup(node, "classification");
        if classification.Some? {
          log := log + [Classified(classification.value)];
          return Returned(classification), log;
        }
        var question := Question(node);
        var options := Options(Keys(node));
        ghost var before := log;
        log := log + [Asked(question, options)];
        if i == |answers| {
          assert answers[i..] == [];
          return OutOfInput, log;
        }
        var answer := Normalize(answers[i]);
        ghost var rest := answers[i + 1..];
        assert answers[i..] == [answers[i]] + rest;
        i := i + 1;
        var next := Lookup(node, answer);
        ghost var target := if next.None? then current else next.value;
        ghost var shown := if next.None? then [Asked(question, options), Invalid(options)] else [Asked(question, options)];
        assert Run(nodes, current, [answers[i - 1]] + rest).0 == Run(nodes, target, rest).0;
        assert Run(nodes, current, [answers[i - 1]] + rest).1 == shown + Run(nodes, target, rest).1;
        if next.None? {
          log := log + [Invalid(options)];
        } else {
          current := next.value;
        }
        assert before + (shown + Run(nodes, target, rest).1) == log + Run(nodes, current, answers[i..]).1;
      }
    }
  }
}
