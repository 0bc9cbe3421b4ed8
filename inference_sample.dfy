/**
 * The scientist table the Lab 5 program walks when run on its own, and
 * what the walker does on it. The table lists its 14 question entries
 * first and its 14 classification entries after them.
 */
module InferenceSample {
  import opened Util
  import opened Inference

  /** How many entries ask a question; the rest hold a classification. */
  const Questions := 14

  /** The id of entry `i` of `transition_table`, its value under `node`. */
  function IdAt(i: int): string {
    match i
    case 0 => "root"
    case 1 => "physics1"
    case 2 => "physics2"
    case 3 => "physics3"
    case 4 => "physics4"
    case 5 => "biology1"
    case 6 => "biology2"
    case 7 => "chemistry1"
    case 8 => "chemistry2"
    case 9 => "math1"
    case 10 => "math2"
    case 11 => "math3"
    case 12 => "cs1"
    case 13 => "cs2"
    case 14 => "einstein"
    case 15 => "newton"
    case 16 => "planck"
    case 17 => "heisenberg"
    case 18 => "darwin"
    case 19 => "mendel"
    case 20 => "marie_curie"
    case 21 => "mendeleev"
    case 22 => "euclid"
    case 23 => "gauss"
    case 24 => "euler"
    case 25 => "turing"
    case 26 => "diffie_hellman"
    case 27 => "unknown"
    case _ => ""
  }

  /** The keys after `node` of a question entry answered `yes` or `no`. */
  function Ask(question: string, yes: string, no: string): Entry {
    [("question", question), ("yes", yes), ("no", no)]
  }

  /** The keys after `node` of question entry `i`, in the order written. */
  function QuestionFields(i: int): Entry {
    match i
    case 0 => [
      ("question", "What is their primary field?"),
      ("physics", "physics1"),
      ("biology", "biology1"),
      ("chemistry", "chemistry1"),
      ("mathematics", "math1"),
      ("computer_science", "cs1"),
      ("other", "unknown")
    ]
    // physics branch
    case 1 => Ask("Are they known for relativity?", "einstein", "physics2")
    case 2 => Ask("Are they known for laws of motion?", "newton", "physics3")
    case 3 => Ask("Are they a pioneer of quantum theory (e.g. black\U{2010}body radiation)?", "planck", "physics4")
    case 4 => Ask("Did they formulate the uncertainty principle?", "heisenberg", "unknown")
    // biology branch
    case 5 => Ask("Did they propose evolution by natural selection?", "darwin", "biology2")
    case 6 => Ask("Are they considered the father of genetics?", "mendel", "unknown")
    // chemistry branch
    case 7 => Ask("Did they discover radioactivity?", "marie_curie", "chemistry2")
    case 8 => Ask("Did they create the periodic table?", "mendeleev", "unknown")
    // mathematics branch
    case 9 => Ask("Are they known as the father of geometry?", "euclid", "math2")
    case 10 => Ask("Did they make major contributions to number theory?", "gauss", "math3")
    case 11 => Ask("Did they lay foundations for graph theory?", "euler", "unknown")
    // computer science branch
    case 12 => Ask("Did they invent the concept of a universal Turing machine?", "turing", "cs2")
    case 13 => Ask("Are they known for public\U{2010}key cryptography?", "diffie_hellman", "unknown")
    case _ => []
  }

  /** The classification of entry `i`. */
  function ClassificationAt(i: int): string {
    match i
    case 14 => "It's Albert Einstein"
    case 15 => "It's Isaac Newton"
    case 16 => "It's Max Planck"
    case 17 => "It's Werner Heisenberg"
    case 18 => "It's Charles Darwin"
    case 19 => "It's Gregor Mendel"
    case 20 => "It's Marie Curie"
    case 21 => "It's Dmitri Mendeleev"
    case 22 => "It's Euclid"
    case 23 => "It's Carl Friedrich Gauss"
    case 24 => "It's Leonhard Euler"
    case 25 => "It's Alan Turing"
    case 26 => "It's Whitfield Diffie & Martin Hellman"
    case 27 => "Scientist not in database"
    case _ => ""
  }

  /** Entry `i` of `transition_table`: its id under `node`, then its other keys. */
  function EntryAt(i: int): Entry {
    if i < Questions then [("node", IdAt(i))] + QuestionFields(i)
    else [("node", IdAt(i)), ("classification", ClassificationAt(i))]
  }

  /** `transition_table`. */
  function Table(): seq<Entry> {
    seq(28, EntryAt)
  }

  /** The index `DecisionTreeSolver(transition_table)` builds. */
  function Nodes(): map<string, Entry> {
    match Index(Table())
    case Some(m) => m
    case None => map[]
  }

  /** Where an id stands in the table, or -1 for any other string. */
  function Position(id: string): int {
    match id
    case "root" => 0
    case "physics1" => 1
    case "physics2" => 2
    case "physics3" => 3
    case "physics4" => 4
    case "biology1" => 5
    case "biology2" => 6
    case "chemistry1" => 7
    case "chemistry2" => 8
    case "math1" => 9
    case "math2" => 10
    case "math3" => 11
    case "cs1" => 12
    case "cs2" => 13
    case "einstein" => 14
    case "newton" => 15
    case "planck" => 16
    case "heisenberg" => 17
    case "darwin" => 18
    case "mendel" => 19
    case "marie_curie" => 20
    case "mendeleev" => 21
    case "euclid" => 22
    case "gauss" => 23
    case "euler" => 24
    case "turing" => 25
    case "diffie_hellman" => 26
    case "unknown" => 27
    case _ => -1
  }

  /** How many answers a walk from entry `i` needs at most to reach a classification. */
  function Height(i: int): nat {
    match i
    case 0 => 5
    case 1 => 4
    case 2 => 3
    case 3 => 2
    case 4 => 1
    case 5 => 2
    case 6 => 1
    case 7 => 2
    case 8 => 1
    case 9 => 3
    case 10 => 2
    case 11 => 1
    case 12 => 2
    case 13 => 1
    case _ => 0
  }

  /** What the walker reads from a yes/no question entry. */
  lemma AskEntry(id: string, question: string, yes: string, no: string)
    ensures Lookup([("node", id)] + Ask(question, yes, no), "classification").None?
    ensures Options(Keys([("node", id)] + Ask(question, yes, no))) == ["yes", "no"]
    ensures Lookup([("node", id)] + Ask(question, yes, no), "yes") == Some(yes)
    ensures Lookup([("node", id)] + Ask(question, yes, no), "no") == Some(no)
  {
    var e := [("node", id)] + Ask(question, yes, no);
    var e1 := [("question", question), ("yes", yes), ("no", no)];
    var e2 := [("yes", yes), ("no", no)];
    var e3 := [("no", no)];
    assert e[1..] == e1 && e1[1..] == e2 && e2[1..] == e3 && e3[1..] == [];
    assert Lookup(e3, "classification") == None && Lookup(e3, "no") == Some(no);
    assert Lookup(e2, "classification") == None && Lookup(e2, "no") == Some(no) && Lookup(e2, "yes") == Some(yes);
    assert Lookup(e1, "classification") == None && Lookup(e1, "no") == Some(no) && Lookup(e1, "yes") == Some(yes);
    assert Keys(e3) == ["no"] && Keys(e2) == ["yes", "no"] && Keys(e1) == ["question", "yes", "no"];
    assert Keys(e) == ["node", "question", "yes", "no"];
    assert Options(["node", "question", "yes", "no"]) == ["yes", "no"];
  }

  /** No two entries share an id: `Position` takes each id back to its entry. */
  lemma IdsApart(i: int)
    requires 0 <= i < |Table()|
    ensures Position(IdAt(i)) == i
  {
    match i
    case 0 => case 1 => case 2 => case 3 => case 4 => case 5 => case 6 =>
    case 7 => case 8 => case 9 => case 10 => case 11 => case 12 => case 13 =>
    case 14 => case 15 => case 16 => case 17 => case 18 => case 19 => case 20 =>
    case 21 => case 22 => case 23 => case 24 => case 25 => case 26 => case 27 =>
  }

  /** The entries the options of question entry `i` lead to, in the order of its options. */
  function Targets(i: int): seq<int> {
    match i
    case 0 => [1, 5, 7, 9, 12, 27]
    case 1 => [14, 2]
    case 2 => [15, 3]
    case 3 => [16, 4]
    case 4 => [17, 27]
    case 5 => [18, 6]
    case 6 => [19, 27]
    case 7 => [20, 8]
    case 8 => [21, 27]
    case 9 => [22, 10]
    case 10 => [23, 11]
    case 11 => [24, 27]
    case 12 => [25, 13]
    case 13 => [26, 27]
    case _ => []
  }

  /**
   * Question entry `i` asks something, and its `m`-th option leads to the
   * entry `Targets(i)[m]` of the table, which needs fewer answers.
   */
  ghost predicate Leads(i: int) {
    var e := EntryAt(i);
    && Lookup(e, "classification").None?
    && Height(i) > 0
    && |Targets(i)| == |Options(Keys(e))|
    && forall m | 0 <= m < |Targets(i)| ::
         && 0 <= Targets(i)[m] < |Table()|
         && Lookup(e, Options(Keys(e))[m]) == Some(IdAt(Targets(i)[m]))
         && Height(Targets(i)[m]) < Height(i)
  }

  /** The options of the root entry, whatever its values. */
  lemma RootOptions(id: string, question: string, p: string, b: string, c: string, m: string, cs: string, o: string)
    ensures var e := [("node", id), ("question", question), ("physics", p), ("biology", b), ("chemistry", c),
                      ("mathematics", m), ("computer_science", cs), ("other", o)];
      Options(Keys(e)) == ["physics", "biology", "chemistry", "mathematics", "computer_science", "other"]
  {
    var e7 := [("other", o)];
    var e6 := [("computer_science", cs), ("other", o)];
    var e5 := [("mathematics", m), ("computer_science", cs), ("other", o)];
    var e4 := [("chemistry", c), ("mathematics", m), ("computer_science", cs), ("other", o)];
    var e3 := [("biology", b), ("chemistry", c), ("mathematics", m), ("computer_science", cs), ("other", o)];
    var e2 := [("physics", p), ("biology", b), ("chemistry", c), ("mathematics", m), ("computer_science", cs), ("other", o)];
    var e1 := [("question", question), ("physics", p), ("biology", b), ("chemistry", c), ("mathematics", m), ("computer_science", cs), ("other", o)];
    var e := [("node", id), ("question", question), ("physics", p), ("biology", b), ("chemistry", c), ("mathematics", m), ("computer_science", cs), ("other", o)];
    assert Keys(e7) == ["other"];
    assert e6[1..] == e7;
    assert Keys(e6) == ["computer_science", "other"];
    assert e5[1..] == e6;
    assert Keys(e5) == ["mathematics", "computer_science", "other"];
    assert e4[1..] == e5;
    assert Keys(e4) == ["chemistry", "mathematics", "computer_science", "other"];
    assert e3[1..] == e4;
    assert Keys(e3) == ["biology", "chemistry", "mathematics", "computer_science", "other"];
    assert e2[1..] == e3;
    assert Keys(e2) == ["physics", "biology", "chemistry", "mathematics", "computer_science", "other"];
    assert Options(["other"]) == ["other"];
    assert ["computer_science", "other"][1..] == ["other"];
    assert Options(["computer_science", "other"]) == ["computer_science", "other"];
    assert ["mathematics", "computer_science", "other"][1..] == ["computer_science", "other"];
    assert Options(["mathematics", "computer_science", "other"]) == ["mathematics", "computer_science", "other"];
    assert ["chemistry", "mathematics", "computer_science", "other"][1..] == ["mathematics", "computer_science", "other"];
    assert Options(["chemistry", "mathematics", "computer_science", "other"]) == ["chemistry", "mathematics", "computer_science", "other"];
    assert ["biology", "chemistry", "mathematics", "computer_science", "other"][1..] == ["chemistry", "mathematics", "computer_science", "other"];
    assert Options(["biology", "chemistry", "mathematics", "computer_science", "other"]) == ["biology", "chemistry", "mathematics", "computer_science", "other"];
    assert ["physics", "biology", "chemistry", "mathematics", "computer_science", "other"][1..] == ["biology", "chemistry", "mathematics", "computer_science", "other"];
    assert Options(["physics", "biology", "chemistry", "mathematics", "computer_science", "other"]) == ["physics", "biology", "chemistry", "mathematics", "computer_science", "other"];
    assert e1[1..] == e2 && e[1..] == e1;
  }

  /** The root entry asks its question and holds no classification, whatever its values. */
  lemma RootAsks(id: string, question: string, p: string, b: string, c: string, m: string, cs: string, o: string)
    ensures var e := [("node", id), ("question", question), ("physics", p), ("biology", b), ("chemistry", c),
                      ("mathematics", m), ("computer_science", cs), ("other", o)];
      Lookup(e, "classification").None? && Lookup(e, "question") == Some(question)
  {
    var e7 := [("other", o)];
    var e6 := [("computer_science", cs), ("other", o)];
    var e5 := [("mathematics", m), ("computer_science", cs), ("other", o)];
    var e4 := [("chemistry", c), ("mathematics", m), ("computer_science", cs), ("other", o)];
    var e3 := [("biology", b), ("chemistry", c), ("mathematics", m), ("computer_science", cs), ("other", o)];
    var e2 := [("physics", p), ("biology", b), ("chemistry", c), ("mathematics", m), ("computer_science", cs), ("other", o)];
    var e1 := [("question", question), ("physics", p), ("biology", b), ("chemistry", c), ("mathematics", m), ("computer_science", cs), ("other", o)];
    var e := [("node", id), ("question", question), ("physics", p), ("biology", b), ("chemistry", c), ("mathematics", m), ("computer_science", cs), ("other", o)];
    assert Lookup(e7, "classification").None?;
    assert e6[1..] == e7;
    assert Lookup(e6, "classification").None?;
    assert e5[1..] == e6;
    assert Lookup(e5, "classification").None?;
    assert e4[1..] == e5;
    assert Lookup(e4, "classification").None?;
    assert e3[1..] == e4;
    assert Lookup(e3, "classification").None?;
    assert e2[1..] == e3;
    assert Lookup(e2, "classification").None?;
    assert e1[1..] == e2;
    assert Lookup(e1, "classification").None?;
    assert e[1..] == e1;
    assert Lookup(e, "classification").None?;
  }

  /** What each option of the root entry leads to, whatever its values. */
  lemma RootTargets(id: string, question: string, p: string, b: string, c: string, m: string, cs: string, o: string)
    ensures var e := [("node", id), ("question", question), ("physics", p), ("biology", b), ("chemistry", c),
                      ("mathematics", m), ("computer_science", cs), ("other", o)];
      && Lookup(e, "physics") == Some(p) && Lookup(e, "biology") == Some(b) && Lookup(e, "chemistry") == Some(c)
      && Lookup(e, "mathematics") == Some(m) && Lookup(e, "computer_science") == Some(cs) && Lookup(e, "other") == Some(o)
  {
    var e7 := [("other", o)];
    var e6 := [("computer_science", cs), ("other", o)];
    var e5 := [("mathematics", m), ("computer_science", cs), ("other", o)];
    var e4 := [("chemistry", c), ("mathematics", m), ("computer_science", cs), ("other", o)];
    var e3 := [("biology", b), ("chemistry", c), ("mathematics", m), ("computer_science", cs), ("other", o)];
    var e2 := [("physics", p), ("biology", b), ("chemistry", c), ("mathematics", m), ("computer_science", cs), ("other", o)];
    var e1 := [("question", question), ("physics", p), ("biology", b), ("chemistry", c), ("mathematics", m), ("computer_science", cs), ("other", o)];
    var e := [("node", id), ("question", question), ("physics", p), ("biology", b), ("chemistry", c), ("mathematics", m), ("computer_science", cs), ("other", o)];
    assert e6[1..] == e7;
    assert Lookup(e6, "computer_science") == Some(cs) && Lookup(e6, "other") == Some(o);
    assert e5[1..] == e6;
    assert Lookup(e5, "mathematics") == Some(m) && Lookup(e5, "computer_science") == Some(cs) && Lookup(e5, "other") == Some(o);
    assert e4[1..] == e5;
    assert Lookup(e4, "chemistry") == Some(c) && Lookup(e4, "mathematics") == Some(m) && Lookup(e4, "computer_science") == Some(cs) && Lookup(e4, "other") == Some(o);
    assert e3[1..] == e4;
    assert Lookup(e3, "biology") == Some(b) && Lookup(e3, "chemistry") == Some(c) && Lookup(e3, "mathematics") == Some(m) && Lookup(e3, "computer_science") == Some(cs) && Lookup(e3, "other") == Some(o);
    assert e2[1..] == e3;
    assert Lookup(e2, "physics") == Some(p) && Lookup(e2, "biology") == Some(b) && Lookup(e2, "chemistry") == Some(c) && Lookup(e2, "mathematics") == Some(m) && Lookup(e2, "computer_science") == Some(cs) && Lookup(e2, "other") == Some(o);
    assert e1[1..] == e2;
    assert Lookup(e1, "physics") == Some(p) && Lookup(e1, "biology") == Some(b) && Lookup(e1, "chemistry") == Some(c) && Lookup(e1, "mathematics") == Some(m) && Lookup(e1, "computer_science") == Some(cs) && Lookup(e1, "other") == Some(o);
    assert e[1..] == e1;
    assert Lookup(e, "physics") == Some(p) && Lookup(e, "biology") == Some(b) && Lookup(e, "chemistry") == Some(c) && Lookup(e, "mathematics") == Some(m) && Lookup(e, "computer_science") == Some(cs) && Lookup(e, "other") == Some(o);
  }

  /** The root asks for the field and its six options lead to the five branches and to `unknown`. */
  lemma RootLeads()
    ensures Lookup(EntryAt(0), "classification").None?
    ensures Lookup(EntryAt(0), "question") == Some("What is their primary field?")
    ensures Options(Keys(EntryAt(0))) == ["physics", "biology", "chemistry", "mathematics", "computer_science", "other"]
    ensures Leads(0)
  {
    RootOptions("root", "What is their primary field?", "physics1", "biology1", "chemistry1", "math1", "cs1", "unknown");
    RootAsks("root", "What is their primary field?", "physics1", "biology1", "chemistry1", "math1", "cs1", "unknown");
    RootTargets("root", "What is their primary field?", "physics1", "biology1", "chemistry1", "math1", "cs1", "unknown");
    hide Lookup, Keys, Options;
    assert EntryAt(0) == [("node", "root"), ("question", "What is their primary field?"), ("physics", "physics1"),
      ("biology", "biology1"), ("chemistry", "chemistry1"), ("mathematics", "math1"), ("computer_science", "cs1"),
      ("other", "unknown")];
  }

  /**
   * A yes/no question entry leads on when both its targets need fewer
   * answers; its keys `node`, `question`, `yes` and `no` are distinct.
   */
  lemma AskLeads(i: int, question: string, yes: int, no: int)
    requires 0 <= yes < |Table()| && 0 <= no < |Table()|
    requires EntryAt(i) == [("node", IdAt(i))] + Ask(question, IdAt(yes), IdAt(no))
    requires Targets(i) == [yes, no] && Height(yes) < Height(i) && Height(no) < Height(i)
    ensures Leads(i) && DistinctKeys(EntryAt(i))
  {
    AskEntry(IdAt(i), question, IdAt(yes), IdAt(no));
    KeysDistinct(EntryAt(i), ["node", "question", "yes", "no"]);
  }

  /** The physics branch: entries 1 to 4 lead on and repeat no key. */
  lemma PhysicsLeads()
    ensures forall i | 1 <= i < 5 :: Leads(i) && DistinctKeys(EntryAt(i))
  {
    hide Lookup, Keys, Options, Leads;
    AskLeads(1, "Are they known for relativity?", 14, 2);
    AskLeads(2, "Are they known for laws of motion?", 15, 3);
    AskLeads(3, "Are they a pioneer of quantum theory (e.g. black\U{2010}body radiation)?", 16, 4);
    AskLeads(4, "Did they formulate the uncertainty principle?", 17, 27);
  }

  /** The biology branch: entries 5 to 6 lead on and repeat no key. */
  lemma BiologyLeads()
    ensures forall i | 5 <= i < 7 :: Leads(i) && DistinctKeys(EntryAt(i))
  {
    hide Lookup, Keys, Options, Leads;
    AskLeads(5, "Did they propose evolution by natural selection?", 18, 6);
    AskLeads(6, "Are they considered the father of genetics?", 19, 27);
  }

  /** The chemistry branch: entries 7 to 8 lead on and repeat no key. */
  lemma ChemistryLeads()
    ensures forall i | 7 <= i < 9 :: Leads(i) && DistinctKeys(EntryAt(i))
  {
    hide Lookup, Keys, Options, Leads;
    AskLeads(7, "Did they discover radioactivity?", 20, 8);
    AskLeads(8, "Did they create the periodic table?", 21, 27);
  }

  /** The mathematics branch: entries 9 to 11 lead on and repeat no key. */
  lemma MathematicsLeads()
    ensures forall i | 9 <= i < 12 :: Leads(i) && DistinctKeys(EntryAt(i))
  {
    hide Lookup, Keys, Options, Leads;
    AskLeads(9, "Are they known as the father of geometry?", 22, 10);
    AskLeads(10, "Did they make major contributions to number theory?", 23, 11);
    AskLeads(11, "Did they lay foundations for graph theory?", 24, 27);
  }

  /** The computer science branch: entries 12 to 13 lead on and repeat no key. */
  lemma ComputerScienceLeads()
    ensures forall i | 12 <= i < 14 :: Leads(i) && DistinctKeys(EntryAt(i))
  {
    hide Lookup, Keys, Options, Leads;
    AskLeads(12, "Did they invent the concept of a universal Turing machine?", 25, 13);
    AskLeads(13, "Are they known for public\U{2010}key cryptography?", 26, 27);
  }

  /** Every question entry leads on. */
  lemma QuestionsLead()
    ensures forall i | 0 <= i < Questions :: Leads(i)
  {
    RootLeads();
    PhysicsLeads();
    BiologyLeads();
    ChemistryLeads();
    MathematicsLeads();
    ComputerScienceLeads();
  }

  /** Every entry after the questions holds its classification. */
  lemma LeavesClassify()
    ensures forall i | Questions <= i < |Table()| :: Lookup(EntryAt(i), "classification") == Some(ClassificationAt(i))
  {
    hide IdAt, ClassificationAt;
    forall i | Questions <= i < |Table()| ensures Lookup(EntryAt(i), "classification") == Some(ClassificationAt(i)) {
      var e := EntryAt(i);
      assert e[1..] == [("classification", ClassificationAt(i))];
    }
  }

  /** An entry whose keys are the given distinct keys, in order, repeats none. */
  lemma KeysDistinct(e: Entry, keys: seq<string>)
    requires |e| == |keys| && forall k | 0 <= k < |e| :: e[k].0 == keys[k]
    requires forall k, l | 0 <= k < l < |keys| :: keys[k] != keys[l]
    ensures DistinctKeys(e)
  {
  }

  /** No entry of the table repeats a key, as no dictionary can. */
  lemma SampleDistinctKeys()
    ensures forall i | 0 <= i < |Table()| :: DistinctKeys(EntryAt(i))
  {
    forall i | 0 <= i < |Table()| ensures DistinctKeys(EntryAt(i)) {
      if i == 0 {
        RootDistinct();
      } else if i < Questions {
        PhysicsLeads();
        BiologyLeads();
        ChemistryLeads();
        MathematicsLeads();
        ComputerScienceLeads();
      } else {
        hide IdAt, ClassificationAt;
        KeysDistinct(EntryAt(i), ["node", "classification"]);
      }
    }
  }

  /** The root's keys: `node`, `question` and its six answers. */
  lemma RootDistinct()
    ensures DistinctKeys(EntryAt(0))
  {
    var keys := ["node", "question", "physics", "biology", "chemistry", "mathematics", "computer_science", "other"];
    assert forall k, l | 0 <= k < l < |keys| :: keys[k] != keys[l];
    KeysDistinct(EntryAt(0), keys);
  }

  /**
   * The table indexes without a missing id, and the index files each of
   * the twenty-eight ids with its own entry and holds nothing else.
   */
  lemma SampleIndexed()
    ensures Index(Table()) == Some(Nodes())
    ensures forall k :: k in Nodes() <==> exists i | 0 <= i < |Table()| :: IdAt(i) == k
    ensures forall i | 0 <= i < |Table()| :: IdAt(i) in Nodes() && Nodes()[IdAt(i)] == EntryAt(i)
  {
    hide IdAt, QuestionFields, ClassificationAt, Position;
    var t := Table();
    forall i | 0 <= i < |t| ensures Position(IdAt(i)) == i && Id(t[i]) == Some(IdAt(i)) {
      IdsApart(i);
    }
    IndexDefined(t);
    IndexKeys(t);
    forall i | 0 <= i < |t| ensures IdAt(i) in Nodes() && Nodes()[IdAt(i)] == EntryAt(i) {
      forall j | i < j < |t| ensures Id(t[j]) != Id(t[i]) {
        assert Position(IdAt(j)) != Position(IdAt(i));
      }
      IndexLaterWins(t, i);
    }
  }

  /** Every target the sample table names is an id of the table. */
  lemma SampleClosed()
    ensures Closed(Nodes())
  {
    hide IdAt, QuestionFields, ClassificationAt, Position, Height, EntryAt, Targets;
    SampleIndexed();
    QuestionsLead();
    LeavesClassify();
    forall k, o | k in Nodes() && Lookup(Nodes()[k], "classification").None? && o in Options(Keys(Nodes()[k]))
      ensures Lookup(Nodes()[k], o).Some? && Lookup(Nodes()[k], o).value in Nodes()
    {
      var i :| 0 <= i < |Table()| && IdAt(i) == k;
      var e := EntryAt(i);
      assert Nodes()[k] == e;
      if i < Questions {
        assert Leads(i);
        var m :| 0 <= m < |Options(Keys(e))| && Options(Keys(e))[m] == o;
        assert Lookup(e, o) == Some(IdAt(Targets(i)[m]));
      } else {
        assert false;
      }
    }
  }

  /** From entry `i` every run of listed answers reaches a classification within `Height(i)` answers. */
  lemma {:induction false} SampleWithin(i: int, n: nat)
    requires 0 <= i < |Table()| && Height(i) <= n
    ensures LeafWithin(Nodes(), IdAt(i), n)
    decreases n
  {
    hide IdAt, QuestionFields, ClassificationAt, Position, Height, EntryAt, Targets;
    SampleIndexed();
    QuestionsLead();
    LeavesClassify();
    var e := EntryAt(i);
    assert IdAt(i) in Nodes() && Nodes()[IdAt(i)] == e;
    if i < Questions {
      assert Leads(i);
      forall o | o in Options(Keys(e)) ensures Lookup(e, o).Some? && LeafWithin(Nodes(), Lookup(e, o).value, n - 1) {
        var m :| 0 <= m < |Options(Keys(e))| && Options(Keys(e))[m] == o;
        SampleWithin(Targets(i)[m], n - 1);
      }
    }
  }

  /**
   * A walk from the root that gives only listed answers returns a
   * classification after at most five answers.
   */
  lemma SampleFinishes(answers: seq<string>)
    requires Listed(Nodes(), "root", answers) && 5 <= |answers|
    ensures Run(Nodes(), "root", answers).0.Returned? && Run(Nodes(), "root", answers).0.value.Some?
    ensures Run(Nodes(), "root", answers) == Run(Nodes(), "root", answers[..5])
  {
    SampleWithin(0, 5);
    FinishesWithin(Nodes(), "root", answers, 5);
  }

  /** The root's question text is not an id of the table. */
  lemma QuestionNotAnId()
    ensures "What is their primary field?" !in Nodes()
  {
    hide IdAt, EntryAt, Lookup, Keys, Options;
    SampleIndexed();
    var q := "What is their primary field?";
    forall i | 0 <= i < |Table()| ensures IdAt(i) != q {
      IdsApart(i);
      assert Position(q) == -1;
    }
  }

  /**
   * At the root the answer `question` ends the walk with `None`, as if the
   * table named an unknown node, though every target of the table is
   * defined.
   */
  lemma QuestionAtRoot()
    ensures Run(Nodes(), "root", ["question"]).0 == Returned(None)
  {
    assert IdAt(0) == "root";
    hide Run, Normalize, Strip, Lower, Options, Keys, Lookup, IdAt, EntryAt, Leads, Position, Index, Table, Nodes;
    SampleIndexed();
    RootLeads();
    QuestionNotAnId();
    assert "root" in Nodes() && Nodes()["root"] == EntryAt(0);
    assert ["question"] + [] == ["question"];
    QuestionAnswerLost(Nodes(), "root", []);
  }

  /** The checked walk never meets an unknown node on the sample table. */
  lemma SampleNeverUnknown(answers: seq<string>)
    ensures RunChecked(Nodes(), "root", answers).0 != Returned(None)
  {
    assert IdAt(0) == "root";
    hide RunChecked, IdAt, EntryAt;
    SampleIndexed();
    SampleClosed();
    ClosedNeverUnknown(Nodes(), "root", answers);
  }
}
