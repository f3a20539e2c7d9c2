/**
 The word rules of the console sample (samples/ConsoleSample/Program.cs):
 five Direct rules between languages, with no direct English-Spanish rule,
 registered in one `AddRange` call.
 */
module Samples {
  import opened Wrappers
  import opened Rules
  import opened Mirror
  import opened RuleGraph
  import opened Search
  import opened Collapsing
  import opened Translator

  datatype Language = German | English | Italian | Spanish

  const Hello: Rule<Language, string> := Direct(English, "hello", German, "hallo")
  const Hallo: Rule<Language, string> := Direct(German, "hallo", Italian, "ciao")
  const Ciao: Rule<Language, string> := Direct(Italian, "ciao", Spanish, "hola")
  const Goodbye: Rule<Language, string> := Direct(English, "goodbye", German, "auf wiedersehen")
  const Good: Rule<Language, string> := Direct(English, "good", German, "gut")

  const Words: seq<Rule<Language, string>> := [Hello, Hallo, Ciao, Goodbye, Good]

  const HelloBack: Rule<Language, string> := Direct(German, "hallo", English, "hello")
  const HalloBack: Rule<Language, string> := Direct(Italian, "ciao", German, "hallo")
  const CiaoBack: Rule<Language, string> := Direct(Spanish, "hola", Italian, "ciao")
  const GoodbyeBack: Rule<Language, string> := Direct(German, "auf wiedersehen", English, "goodbye")
  const GoodBack: Rule<Language, string> := Direct(German, "gut", English, "good")

  /** The rules of `Words` followed by their mirrors, the order `AddRange` inserts them in. */
  function Registration(): seq<Rule<Language, string>>
  {
    [Hello, Hallo, Ciao, Goodbye, Good, HelloBack, HalloBack, CiaoBack, GoodbyeBack, GoodBack]
  }

  /** The graphs after each insertion of `Registration()`, written out. */
  function AfterHello(): Graph<Language, string>
  {
    Graph(
      map[English := map[German := [Hello]]],
      map[English := [German]])
  }

  function AfterHallo(): Graph<Language, string>
  {
    Graph(
      map[English := map[German := [Hello]],
        German := map[Italian := [Hallo]]],
      map[English := [German], German := [Italian]])
  }

  function AfterCiao(): Graph<Language, string>
  {
    Graph(
      map[English := map[German := [Hello]],
        German := map[Italian := [Hallo]],
        Italian := map[Spanish := [Ciao]]],
      map[English := [German], German := [Italian], Italian := [Spanish]])
  }

  function AfterGoodbye(): Graph<Language, string>
  {
    Graph(
      map[English := map[German := [Hello, Goodbye]],
        German := map[Italian := [Hallo]],
        Italian := map[Spanish := [Ciao]]],
      map[English := [German], German := [Italian], Italian := [Spanish]])
  }

  function AfterGood(): Graph<Language, string>
  {
    Graph(
      map[English := map[German := [Hello, Goodbye, Good]],
        German := map[Italian := [Hallo]],
        Italian := map[Spanish := [Ciao]]],
      map[English := [German], German := [Italian], Italian := [Spanish]])
  }

  function AfterHelloBack(): Graph<Language, string>
  {
    Graph(
      map[English := map[German := [Hello, Goodbye, Good]],
        German := map[Italian := [Hallo], English := [HelloBack]],
        Italian := map[Spanish := [Ciao]]],
      map[English := [German], German := [Italian, English], Italian := [Spanish]])
  }

  function AfterHalloBack(): Graph<Language, string>
  {
    Graph(
      map[English := map[German := [Hello, Goodbye, Good]],
        German := map[Italian := [Hallo], English := [HelloBack]],
        Italian := map[Spanish := [Ciao], German := [HalloBack]]],
      map[English := [German], German := [Italian, English], Italian := [Spanish, German]])
  }

  function AfterCiaoBack(): Graph<Language, string>
  {
    Graph(
      map[English := map[German := [Hello, Goodbye, Good]],
        German := map[Italian := [Hallo], English := [HelloBack]],
        Italian := map[Spanish := [Ciao], German := [HalloBack]],
        Spanish := map[Italian := [CiaoBack]]],
      map[English := [German], German := [Italian, English], Italian := [Spanish, German], Spanish := [Italian]])
  }

  function AfterGoodbyeBack(): Graph<Language, string>
  {
    Graph(
      map[English := map[German := [Hello, Goodbye, Good]],
        German := map[Italian := [Hallo], English := [HelloBack, GoodbyeBack]],
        Italian := map[Spanish := [Ciao], German := [HalloBack]],
        Spanish := map[Italian := [CiaoBack]]],
      map[English := [German], German := [Italian, English], Italian := [Spanish, German], Spanish := [Italian]])
  }

  function AfterGoodBack(): Graph<Language, string>
  {
    Graph(
      map[English := map[German := [Hello, Goodbye, Good]],
        German := map[Italian := [Hallo], English := [HelloBack, GoodbyeBack, GoodBack]],
        Italian := map[Spanish := [Ciao], German := [HalloBack]],
        Spanish := map[Italian := [CiaoBack]]],
      map[English := [German], German := [Italian, English], Italian := [Spanish, German], Spanish := [Italian]])
  }

  /** The graph before and after each insertion of `Registration()`, starting from an empty one. */
  function Stages(): seq<Graph<Language, string>>
  {
    [Empty(), AfterHello(), AfterHallo(), AfterCiao(), AfterGoodbye(), AfterGood(), AfterHelloBack(), AfterHalloBack(), AfterCiaoBack(), AfterGoodbyeBack(), AfterGoodBack()]
  }

  lemma RegisterHello()
    ensures Insert(Empty(), Hello) == AfterHello()
  {
    var g := Insert(Empty(), Hello);
    var ks: seq<Language> := [];
    assert ks + [German] == [German];
    assert g.order == AfterHello().order;
    assert g.edges[English] == AfterHello().edges[English];
  }

  lemma RegisterHallo()
    ensures Insert(AfterHello(), Hallo) == AfterHallo()
  {
    var g := Insert(AfterHello(), Hallo);
    var ks: seq<Language> := [];
    assert ks + [Italian] == [Italian];
    assert g.order == AfterHallo().order;
    assert g.edges[German] == AfterHallo().edges[German];
  }

  lemma RegisterCiao()
    ensures Insert(AfterHallo(), Ciao) == AfterCiao()
  {
    var g := Insert(AfterHallo(), Ciao);
    var ks: seq<Language> := [];
    assert ks + [Spanish] == [Spanish];
    assert g.order == AfterCiao().order;
    assert g.edges[Italian] == AfterCiao().edges[Italian];
  }

  lemma RegisterGoodbye()
    ensures Insert(AfterCiao(), Goodbye) == AfterGoodbye()
  {
    var g := Insert(AfterCiao(), Goodbye);
    assert AfterCiao().edges[English][German] + [Goodbye] == [Hello, Goodbye];
    assert g.order == AfterGoodbye().order;
    assert g.edges[English] == AfterGoodbye().edges[English];
  }

  lemma RegisterGood()
    ensures Insert(AfterGoodbye(), Good) == AfterGood()
  {
    var g := Insert(AfterGoodbye(), Good);
    assert AfterGoodbye().edges[English][German] + [Good] == [Hello, Goodbye, Good];
    assert g.order == AfterGood().order;
    assert g.edges[English] == AfterGood().edges[English];
  }

  lemma RegisterHelloBack()
    ensures Insert(AfterGood(), HelloBack) == AfterHelloBack()
  {
    var g := Insert(AfterGood(), HelloBack);
    var ks: seq<Language> := [Italian];
    assert ks + [English] == [Italian, English];
    assert g.order == AfterHelloBack().order;
    assert g.edges[German] == AfterHelloBack().edges[German];
  }

  lemma RegisterHalloBack()
    ensures Insert(AfterHelloBack(), HalloBack) == AfterHalloBack()
  {
    var g := Insert(AfterHelloBack(), HalloBack);
    var ks: seq<Language> := [Spanish];
    assert ks + [German] == [Spanish, German];
    assert g.order == AfterHalloBack().order;
    assert g.edges[Italian] == AfterHalloBack().edges[Italian];
  }

  lemma RegisterCiaoBack()
    ensures Insert(AfterHalloBack(), CiaoBack) == AfterCiaoBack()
  {
    var g := Insert(AfterHalloBack(), CiaoBack);
    var ks: seq<Language> := [];
    assert ks + [Italian] == [Italian];
    assert g.order == AfterCiaoBack().order;
    assert g.edges[Spanish] == AfterCiaoBack().edges[Spanish];
  }

  lemma RegisterGoodbyeBack()
    ensures Insert(AfterCiaoBack(), GoodbyeBack) == AfterGoodbyeBack()
  {
    var g := Insert(AfterCiaoBack(), GoodbyeBack);
    assert AfterCiaoBack().edges[German][English] + [GoodbyeBack] == [HelloBack, GoodbyeBack];
    assert g.order == AfterGoodbyeBack().order;
    assert g.edges[German] == AfterGoodbyeBack().edges[German];
  }

  lemma RegisterGoodBack()
    ensures Insert(AfterGoodbyeBack(), GoodBack) == AfterGoodBack()
  {
    var g := Insert(AfterGoodbyeBack(), GoodBack);
    assert AfterGoodbyeBack().edges[German][English] + [GoodBack] == [HelloBack, GoodbyeBack, GoodBack];
    assert g.order == AfterGoodBack().order;
    assert g.edges[German] == AfterGoodBack().edges[German];
  }

  /** Insertion n of `Registration()` takes written-out stage n to stage n + 1. */
  lemma StageStep(n: nat)
    requires n < |Registration()|
    ensures n + 1 < |Stages()| && Insert(Stages()[n], Registration()[n]) == Stages()[n + 1]
  {
    match n
      case 0 => RegisterHello();
      case 1 => RegisterHallo();
      case 2 => RegisterCiao();
      case 3 => RegisterGoodbye();
      case 4 => RegisterGood();
      case 5 => RegisterHelloBack();
      case 6 => RegisterHalloBack();
      case 7 => RegisterCiaoBack();
      case 8 => RegisterGoodbyeBack();
      case _ => RegisterGoodBack();
  }

  /** Each insertion of `Registration()` takes one written-out stage to the next. */
  lemma StagesStep()
    ensures |Stages()| == |Registration()| + 1
    ensures forall n | 0 <= n < |Registration()| :: Insert(Stages()[n], Registration()[n]) == Stages()[n + 1]
  {
    forall n | 0 <= n < |Registration()|
      ensures Insert(Stages()[n], Registration()[n]) == Stages()[n + 1]
    {
      StageStep(n);
    }
  }

  /** The `...Back` rules are the mirrors `AddRange` adds, in the order it adds them. */
  lemma MirrorWords()
    ensures Swap(Hello) == HelloBack && Swap(Hallo) == HalloBack && Swap(Ciao) == CiaoBack
    ensures Swap(Goodbye) == GoodbyeBack && Swap(Good) == GoodBack
    ensures Words + Mirrors(Words) == Registration()
  {
    assert Mirrors(Words[4..]) == [GoodBack] by { assert Words[4..][1..] == []; }
    assert Mirrors(Words[3..]) == [GoodbyeBack, GoodBack] by { assert Words[3..][1..] == Words[4..]; }
    assert Mirrors(Words[2..]) == [CiaoBack, GoodbyeBack, GoodBack] by { assert Words[2..][1..] == Words[3..]; }
    assert Mirrors(Words[1..]) == [HalloBack, CiaoBack, GoodbyeBack, GoodBack] by { assert Words[1..][1..] == Words[2..]; }
  }

  /** The graph `AddRange(Words)` builds on an empty translator. */
  function WordGraph(): Graph<Language, string>
  {
    AfterGoodBack()
  }

  /** Registering the sample's word rules on an empty translator succeeds and builds `WordGraph`, a well-formed graph. */
  lemma WordsRegister()
    ensures AddRange(Empty(), Words) == Success(WordGraph())
    ensures WellFormed(WordGraph())
  {
    var all := Registration();
    MirrorWords();
    NothingCollidesWithEmpty(all);
    StagesStep();
    InsertAllStages(Stages(), all);
    assert InsertAll(Empty(), all) == WordGraph() by {
      assert Stages()[0] == Empty() && Stages()[10] == WordGraph();
    }
    InsertAllWellFormed(Empty(), all);
  }

  lemma EnglishNeighbours()
    ensures Neighbours(WordGraph(), English) == [Hello, Goodbye, Good]
  {
    var m := WordGraph().edges[English];
    assert Concat(m, [German]) == m[German] + Concat(m, []);
  }

  lemma GermanNeighbours()
    ensures Neighbours(WordGraph(), German) == [Hallo, HelloBack, GoodbyeBack, GoodBack]
  {
    var m := WordGraph().edges[German];
    assert Concat(m, [English]) == m[English] + Concat(m, []);
    assert Concat(m, [Italian, English]) == m[Italian] + Concat(m, [English]);
  }

  lemma ItalianNeighbours()
    ensures Neighbours(WordGraph(), Italian) == [Ciao, HalloBack]
  {
    var m := WordGraph().edges[Italian];
    assert Concat(m, [German]) == m[German] + Concat(m, []);
    assert Concat(m, [Spanish, German]) == m[Spanish] + Concat(m, [German]);
  }

  lemma SpanishNeighbours()
    ensures Neighbours(WordGraph(), Spanish) == [CiaoBack]
  {
    var m := WordGraph().edges[Spanish];
    assert Concat(m, [Italian]) == m[Italian] + Concat(m, []);
  }

  /** Italian "ciao" has a direct hit in the Italian-Spanish bucket. */
  lemma CiaoHitsSpanish(visited: set<(Language, Language)>)
    ensures Find(WordGraph(), "ciao", Italian, Spanish, visited) == Outcome(true, [Ciao], visited)
  {
    assert FirstHit([Ciao], "ciao", Spanish) == Some(0);
  }

  /** German has no Spanish bucket; the search steps over "hallo" to Italian. */
  lemma HalloReachesSpanish()
    ensures Find(WordGraph(), "hallo", German, Spanish, {(English, German)})
      == Outcome(true, [Hallo, Ciao], {(English, German), (German, Italian)})
  {
    GermanNeighbours();
    var v1 := {(English, German)};
    CiaoHitsSpanish(v1 + {(German, Italian)});
    assert v1 + {(German, Italian)} == {(English, German), (German, Italian)};
  }

  lemma HelloReachesSpanish()
    ensures Find(WordGraph(), "hello", English, Spanish, {})
      == Outcome(true, [Hello, Hallo, Ciao], {(English, German), (German, Italian)})
  {
    EnglishNeighbours();
    HalloReachesSpanish();
    assert {} + {(English, German)} == {(English, German)};
  }

  /** "hello" goes from English to Spanish in three steps, through German and Italian, and becomes "hola". */
  lemma HelloToSpanish()
    ensures TryTranslation(WordGraph(), "hello", English, Spanish, "")
      == Success(Answer(true, [Hello, Hallo, Ciao], "hola"))
  {
    HelloReachesSpanish();
    CollapsedKeeps([Hello, Hallo, Ciao]);
    FoldDirect([Hello, Hallo, Ciao], "hello");
  }

  /**
   "yo" is not a Spanish literal of any rule, so nothing leaves Spanish and the
   query is not found. The default value `""` stands in for C#'s
   `default(string)`, which is null; the model has no null string, and the
   answer is whatever default the caller passes.
   */
  lemma YoNotFound()
    ensures TryTranslation(WordGraph(), "yo", Spanish, English, "") == Success(Answer(false, [], ""))
  {
    SpanishNeighbours();
    assert !Eligible(CiaoBack, "yo");
  }

  /** Back in Spanish with the Spanish-Italian pair already travelled, the search has nowhere to go. */
  lemma HolaStuckInSpanish()
    ensures Find(WordGraph(), "hola", Spanish, English, {(Spanish, Italian), (Italian, Spanish)})
      == Outcome(false, [], {(Spanish, Italian), (Italian, Spanish)})
  {
    SpanishNeighbours();
  }

  /** German "hallo" has a direct hit in the German-English bucket. */
  lemma HalloHitsEnglish(visited: set<(Language, Language)>)
    ensures Find(WordGraph(), "hallo", German, English, visited) == Outcome(true, [HelloBack], visited)
  {
    assert FirstHit([HelloBack, GoodbyeBack, GoodBack], "hallo", English) == Some(0);
  }

  /**
   From Italian the search first walks back to Spanish, which fails and
   leaves the pair Italian-Spanish travelled, and then reaches English
   through German.
   */
  lemma CiaoReachesEnglish()
    ensures Find(WordGraph(), "ciao", Italian, English, {(Spanish, Italian)})
      == Outcome(true, [HalloBack, HelloBack], {(Spanish, Italian), (Italian, Spanish), (Italian, German)})
  {
    ItalianNeighbours();
    HolaStuckInSpanish();
    var v2 := {(Spanish, Italian), (Italian, Spanish)};
    HalloHitsEnglish(v2 + {(Italian, German)});
    assert {(Spanish, Italian)} + {(Italian, Spanish)} == v2;
    assert v2 + {(Italian, German)} == {(Spanish, Italian), (Italian, Spanish), (Italian, German)};
  }

  lemma HolaReachesEnglish()
    ensures Find(WordGraph(), "hola", Spanish, English, {}).path == [CiaoBack, HalloBack, HelloBack]
  {
    SpanishNeighbours();
    CiaoReachesEnglish();
    assert {} + {(Spanish, Italian)} == {(Spanish, Italian)};
  }

  /** "hola" goes back from Spanish to English as "hello", along the mirrors of the forward path. */
  lemma HolaToEnglish()
    ensures TryTranslation(WordGraph(), "hola", Spanish, English, "")
      == Success(Answer(true, [CiaoBack, HalloBack, HelloBack], "hello"))
  {
    HolaReachesEnglish();
    CollapsedKeeps([CiaoBack, HalloBack, HelloBack]);
    FoldDirect([CiaoBack, HalloBack, HelloBack], "hola");
  }

  /** "hello" and "goodbye" have direct hits in the English-German bucket, each on its own literal rule. */
  lemma EnglishToGerman()
    ensures TryTranslation(WordGraph(), "hello", English, German, "")
      == Success(Answer(true, [Hello], "hallo"))
    ensures TryTranslation(WordGraph(), "goodbye", English, German, "")
      == Success(Answer(true, [Goodbye], "auf wiedersehen"))
  {
    var bucket := [Hello, Goodbye, Good];
    assert FirstHit(bucket, "hello", German) == Some(0);
    assert FirstHit(bucket[1..], "goodbye", German) == Some(0);
    assert FirstHit(bucket, "goodbye", German) == Some(1);
    CollapsedKeeps([Hello]);
    CollapsedKeeps([Goodbye]);
  }
}
