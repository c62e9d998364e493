/** The unit tests of src/main.rs, and a few edge cases of the pattern,
    stated as facts about the model. Each test text is written as template
    pieces, so that the general lemmas about templates do the work. */
module Scenarios {
  import opened Forms
  import opened Replace
  import opened Fill
  import opened Templates

  /** The indentation of the second line in the multi-line tests. */
  const Indent: string := "                      "

  /** The three forms every template of the tests has. */
  const NameAgePlace: seq<Form> :=
    [Form("name", "{name}"), Form("age", "{age}"), Form("place", "{place}")]

  /** The template of the multi-line tests. */
  const Template: string :=
    "Hello, my name is {name}.\n" + Indent + "I'm {age} and live in {place}."

  /** The test template as pieces, with `gap` between its two sentences. */
  function TemplatePieces(gap: string): seq<Piece>
  {
    [Plain("Hello, my name is "), Slot("name"), Plain(gap + "I'm "), Slot("age"),
     Plain(" and live in "), Slot("place"), Plain(".")]
  }

  lemma Markers()
    ensures Marker("name") == "{name}" && Marker("age") == "{age}"
    ensures Marker("place") == "{place}" && Marker("x") == "{x}"
  {
  }

  lemma NameAgePlaceMarkers()
    ensures NameAgePlace == [Form("name", Marker("name")), Form("age", Marker("age")),
                             Form("place", Marker("place"))]
  {
    Markers();
  }

  lemma TemplateTexts(gap: string)
    requires '{' !in gap
    ensures '{' !in "Hello, my name is " && '{' !in gap + "I'm "
    ensures '{' !in " and live in " && '{' !in "."
  {
  }

  lemma TemplateNames()
    ensures PlainName("name") && PlainName("age") && PlainName("place")
  {
  }

  lemma TemplateWellFormed(gap: string)
    requires '{' !in gap
    ensures WellFormed(TemplatePieces(gap))
  {
    TemplateTexts(gap);
    TemplateNames();
  }

  /** The template's forms, whatever brace-free text separates its
      sentences. */
  lemma TemplateForms(gap: string)
    requires '{' !in gap
    ensures FormsOf(Render(TemplatePieces(gap))) == NameAgePlace
  {
    TemplateWellFormed(gap);
    FormsOfRender(TemplatePieces(gap));
    SlotFormsTemplate(gap);
    NameAgePlaceMarkers();
  }

  /** Rendering and listing the slots of a template of seven pieces. */
  lemma Seven(p0: Piece, p1: Piece, p2: Piece, p3: Piece, p4: Piece, p5: Piece, p6: Piece)
    ensures Render([p0, p1, p2, p3, p4, p5, p6])
         == PieceText(p0) + (PieceText(p1) + (PieceText(p2) + (PieceText(p3)
          + (PieceText(p4) + (PieceText(p5) + PieceText(p6))))))
    ensures SlotForms([p0, p1, p2, p3, p4, p5, p6])
         == PieceForms(p0) + (PieceForms(p1) + (PieceForms(p2) + (PieceForms(p3)
          + (PieceForms(p4) + (PieceForms(p5) + PieceForms(p6))))))
  {
    var r6 := [p6];
    var r5 := [p5] + r6;
    var r4 := [p4] + r5;
    var r3 := [p3] + r4;
    var r2 := [p2] + r3;
    var r1 := [p1] + r2;
    assert [p0] + r1 == [p0, p1, p2, p3, p4, p5, p6];
    Three(p4, p5, p6);
    assert [p4, p5, p6] == r4;
    RenderCons(p3, r4);
    RenderCons(p2, r3);
    RenderCons(p1, r2);
    RenderCons(p0, r1);
    SlotFormsCons(p3, r4);
    SlotFormsCons(p2, r3);
    SlotFormsCons(p1, r2);
    SlotFormsCons(p0, r1);
  }

  /** Rendering and listing the slots of a template of three pieces. */
  lemma Three(p0: Piece, p1: Piece, p2: Piece)
    ensures Render([p0, p1, p2]) == PieceText(p0) + (PieceText(p1) + PieceText(p2))
    ensures SlotForms([p0, p1, p2]) == PieceForms(p0) + (PieceForms(p1) + PieceForms(p2))
  {
    var r2 := [p2];
    var r1 := [p1] + r2;
    assert [p0] + r1 == [p0, p1, p2];
    assert [p2] + [] == r2;
    RenderCons(p2, []);
    RenderCons(p1, r2);
    RenderCons(p0, r1);
    SlotFormsCons(p2, []);
    SlotFormsCons(p1, r2);
    SlotFormsCons(p0, r1);
    assert PieceText(p2) + [] == PieceText(p2);
    assert PieceForms(p2) + [] == PieceForms(p2);
  }

  /** The template's text, built the way rendering builds it. */
  lemma RenderTemplate(gap: string)
    ensures Render(TemplatePieces(gap))
         == "Hello, my name is " + ("{name}" + ((gap + "I'm ") + ("{age}"
          + (" and live in " + ("{place}" + ".")))))
  {
    Seven(Plain("Hello, my name is "), Slot("name"), Plain(gap + "I'm "), Slot("age"),
          Plain(" and live in "), Slot("place"), Plain("."));
    Markers();
  }

  /** The template's slots, listed the way listing builds them. */
  lemma SlotFormsTemplate(gap: string)
    ensures SlotForms(TemplatePieces(gap))
         == [Form("name", Marker("name"))] + ([Form("age", Marker("age"))]
          + [Form("place", Marker("place"))])
  {
    Seven(Plain("Hello, my name is "), Slot("name"), Plain(gap + "I'm "), Slot("age"),
          Plain(" and live in "), Slot("place"), Plain("."));
  }

  lemma MultipleText()
    ensures "Hello, my name is " + ("{name}" + ((". " + "I'm ") + ("{age}"
          + (" and live in " + ("{place}" + ".")))))
         == "Hello, my name is {name}. I'm {age} and live in {place}."
  {
  }

  /** Regrouping the rendered text of a template whose gap is a line break
      followed by an indentation. */
  lemma Regroup(h: string, n: string, d: string, ind: string, i: string, t: string)
    ensures h + (n + (((d + ind) + i) + t)) == ((h + (n + d)) + ind) + (i + t)
  {
  }

  lemma MultilineText()
    ensures "Hello, my name is " + ("{name}" + (((".\n" + Indent) + "I'm ") + ("{age}"
          + (" and live in " + ("{place}" + ".")))))
         == Template
  {
    Regroup("Hello, my name is ", "{name}", ".\n", Indent, "I'm ",
            "{age}" + (" and live in " + ("{place}" + ".")));
    assert "Hello, my name is " + ("{name}" + ".\n") == "Hello, my name is {name}.\n";
    assert "I'm " + ("{age}" + (" and live in " + ("{place}" + "."))) == "I'm {age} and live in {place}.";
  }

  lemma RenderMultiline()
    ensures Render(TemplatePieces(".\n" + Indent)) == Template
  {
    RenderTemplate(".\n" + Indent);
    MultilineText();
  }

  lemma SingleWellFormed()
    ensures WellFormed([Plain("Hello, my name is "), Slot("name"), Plain(".")])
  {
    TemplateTexts("");
    TemplateNames();
  }

  lemma RenderSingle()
    ensures Render([Plain("Hello, my name is "), Slot("name"), Plain(".")]) == "Hello, my name is {name}."
    ensures SlotForms([Plain("Hello, my name is "), Slot("name"), Plain(".")]) == [Form("name", "{name}")]
  {
    Three(Plain("Hello, my name is "), Slot("name"), Plain("."));
    Markers();
  }

  /** test_get_forms, a single form. */
  lemma GetFormsSingle()
    ensures FormsOf("Hello, my name is {name}.") == [Form("name", "{name}")]
  {
    RenderSingle();
    SingleWellFormed();
    FormsOfRender([Plain("Hello, my name is "), Slot("name"), Plain(".")]);
  }

  /** test_get_forms, several forms on one line. */
  lemma GetFormsMultiple()
    ensures FormsOf("Hello, my name is {name}. I'm {age} and live in {place}.")
         == NameAgePlace
  {
    RenderTemplate(". ");
    MultipleText();
    TemplateForms(". ");
  }

  /** test_get_forms, no form. */
  lemma GetFormsNone()
    ensures FormsOf("Hello") == []
  {
    NoBraceNoForms("Hello");
  }

  /** test_get_forms, forms on two lines. */
  lemma GetFormsMultiline()
    ensures FormsOf(Template) == NameAgePlace
  {
    RenderMultiline();
    GapPlain();
    TemplateForms(".\n" + Indent);
  }

  lemma RepeatedWellFormed()
    ensures WellFormed([Slot("x"), Plain(" and "), Slot("x")])
  {
    assert PlainName("x") && '{' !in " and ";
  }

  lemma RenderRepeated()
    ensures Render([Slot("x"), Plain(" and "), Slot("x")]) == "{x} and {x}"
    ensures SlotForms([Slot("x"), Plain(" and "), Slot("x")]) == [Form("x", "{x}"), Form("x", "{x}")]
  {
    Three(Slot("x"), Plain(" and "), Slot("x"));
    Markers();
  }

  /** A repeated marker yields one entry per occurrence. */
  lemma GetFormsRepeated()
    ensures FormsOf("{x} and {x}") == [Form("x", "{x}"), Form("x", "{x}")]
  {
    RenderRepeated();
    RepeatedWellFormed();
    FormsOfRender([Slot("x"), Plain(" and "), Slot("x")]);
  }

  /** Empty braces give an empty name. */
  lemma GetFormsEmptyBraces()
    ensures FormsOf("{}") == [Form("", "{}")]
  {
    var e := "";
    assert Marker(e) == "{}";
    assert Marker(e) + e == "{}";
    MarkerAtFront(e, e);
    NoBraceNoForms(e);
  }

  /** An opening brace inside a marker becomes part of the name. */
  lemma GetFormsInnerOpen()
    ensures FormsOf("{a{b}") == [Form("a{b", "{a{b}")]
  {
    var n, e := "a{b", "";
    assert Marker(n) == "{a{b}";
    assert Marker(n) + e == "{a{b}";
    MarkerAtFront(n, e);
    NoBraceNoForms(e);
  }

  /** A marker never spans a newline. */
  lemma GetFormsNoLineSpan()
    ensures FormsOf("{a\nb}") == []
  {
    var s := "{a\nb}";
    forall i | 0 <= i < |s|
      ensures !StartsMatch(s, i)
    {
      if i == 0 {
        forall j: nat
          ensures !Matches(s, 0, j)
        {
          if 2 < j {
            assert s[2] == '\n';
          }
        }
      }
    }
    NoFormsIff(s);
  }

  /** Filling empty braces with `X`. */
  lemma FillEmptyBraces()
    ensures ReplaceAll("{}", "{}", "X") == "X"
  {
    FillRender([Slot("")], "", "X");
  }

  /** The pieces of `{a} {b}`. */
  function AB(): seq<Piece>
  {
    [Slot("a"), Plain(" "), Slot("b")]
  }

  lemma RenderAB()
    ensures WellFormed(AB())
    ensures Render(AB()) == "{a} {b}"
  {
    assert PlainName("a") && PlainName("b") && '{' !in " ";
    Three(Slot("a"), Plain(" "), Slot("b"));
    assert Marker("a") == "{a}" && Marker("b") == "{b}";
  }

  /** Filling `a` of `{a} {b}` with `v` turns the first slot into `v`. */
  lemma FillA(v: string)
    ensures ReplaceAll("{a} {b}", "{a}", v) == v + (" " + "{b}")
  {
    RenderAB();
    FillRender(AB(), "a", v);
    var filled := FillSlots(AB(), "a", v);
    assert filled == [Plain(v), Plain(" "), Slot("b")];
    Three(Plain(v), Plain(" "), Slot("b"));
    assert Marker("a") == "{a}" && Marker("b") == "{b}";
  }

  /** A value with an opening brace can swallow a later form: filling `a`
      of `{a} {b}` with `{` leaves one form, named ` {b`, and `b` is lost. */
  lemma FillCanLoseForm()
    ensures ReplaceAll("{a} {b}", "{a}", "{") == "{ {b}"
    ensures FormsOf("{ {b}") == [Form(" {b", "{ {b}")]
  {
    FillA("{");
    SwallowedForm();
  }

  lemma SwallowedForm()
    ensures FormsOf("{ {b}") == [Form(" {b", "{ {b}")]
  {
    var n, e := " {b", "";
    assert Marker(n) == "{ {b}" && Marker(n) + e == "{ {b}";
    MarkerAtFront(n, e);
    NoBraceNoForms(e);
  }

  /** Across calls, inserted text is searched by later fills: a value that
      holds a later marker is replaced when that marker is filled. */
  lemma LaterFillRescans()
    ensures ReplaceAll(ReplaceAll("{a} {b}", "{a}", "{b}"), "{b}", "x") == "x x"
  {
    FillA("{b}");
    FillBB();
  }

  /** Filling `b` of `{b} {b}` with `x`. */
  lemma FillBB()
    ensures ReplaceAll("{b}" + (" " + "{b}"), "{b}", "x") == "x x"
  {
    var qs := [Slot("b"), Plain(" "), Slot("b")];
    assert PlainName("b") && '{' !in " ";
    Three(Slot("b"), Plain(" "), Slot("b"));
    assert Marker("b") == "{b}";
    FillRender(qs, "b", "x");
    assert FillSlots(qs, "b", "x") == [Plain("x"), Plain(" "), Plain("x")];
    Three(Plain("x"), Plain(" "), Plain("x"));
    assert "x" + (" " + "x") == "x x";
  }

  /** The names and the values of test_fill_form, in order. */
  const Names: seq<string> := ["name", "age", "place"]
  const Values: seq<string> := ["Ix5231", "19", "Japan"]

  /** The test template, with `gap` between its sentences, after its first
      `k` forms are filled. */
  function Stage(gap: string, k: nat): seq<Piece>
  {
    [Plain("Hello, my name is "), if 0 < k then Plain(Values[0]) else Slot("name"),
     Plain(gap + "I'm "), if 1 < k then Plain(Values[1]) else Slot("age"),
     Plain(" and live in "), if 2 < k then Plain(Values[2]) else Slot("place"),
     Plain(".")]
  }

  lemma StageStart(gap: string)
    ensures Stage(gap, 0) == TemplatePieces(gap)
  {
  }

  lemma ValuesPlain()
    ensures '{' !in Values[0] && '{' !in Values[1] && '{' !in Values[2]
  {
  }

  lemma StageWellFormed(gap: string, k: nat)
    requires '{' !in gap
    ensures WellFormed(Stage(gap, k))
  {
    TemplateTexts(gap);
    TemplateNames();
    ValuesPlain();
  }

  lemma NamesDistinct()
    ensures Names[0] != Names[1] && Names[0] != Names[2] && Names[1] != Names[2]
    ensures '}' !in Names[0] && '}' !in Names[1] && '}' !in Names[2]
  {
    assert |Names[0]| != |Names[1]| && |Names[0]| != |Names[2]| && |Names[1]| != |Names[2]|;
  }

  /** Filling the next form turns the next slot into its value. */
  lemma StageStep(gap: string, k: nat)
    requires '{' !in gap && k < 3
    ensures ReplaceAll(Render(Stage(gap, k)), Marker(Names[k]), Values[k])
         == Render(Stage(gap, k + 1))
  {
    StageWellFormed(gap, k);
    NamesDistinct();
    FillRender(Stage(gap, k), Names[k], Values[k]);
    StageFill(gap, k);
  }

  lemma StageFill(gap: string, k: nat)
    requires k < 3
    ensures FillSlots(Stage(gap, k), Names[k], Values[k]) == Stage(gap, k + 1)
  {
    NamesDistinct();
    var ps, next := Stage(gap, k), Stage(gap, k + 1);
    var filled := FillSlots(ps, Names[k], Values[k]);
    forall j | 0 <= j < 7
      ensures filled[j] == next[j]
    {
      assert filled[j] == if ps[j] == Slot(Names[k]) then Plain(Values[k]) else ps[j];
      assert ps[j] == Slot(Names[k]) <==> j == 2 * k + 1;
    }
  }

  lemma RenderFilled(gap: string)
    ensures Render(Stage(gap, 3))
         == "Hello, my name is " + ("Ix5231" + ((gap + "I'm ") + ("19"
          + (" and live in " + ("Japan" + ".")))))
  {
    Seven(Plain("Hello, my name is "), Plain("Ix5231"), Plain(gap + "I'm "), Plain("19"),
          Plain(" and live in "), Plain("Japan"), Plain("."));
  }

  lemma FilledText()
    ensures "Hello, my name is " + ("Ix5231" + (((".\n" + Indent) + "I'm ") + ("19"
          + (" and live in " + ("Japan" + ".")))))
         == "Hello, my name is Ix5231.\n" + Indent + "I'm 19 and live in Japan."
  {
    Regroup("Hello, my name is ", "Ix5231", ".\n", Indent, "I'm ",
            "19" + (" and live in " + ("Japan" + ".")));
    assert "Hello, my name is " + ("Ix5231" + ".\n") == "Hello, my name is Ix5231.\n";
    assert "I'm " + ("19" + (" and live in " + ("Japan" + "."))) == "I'm 19 and live in Japan.";
  }

  lemma StageEnd()
    ensures Render(Stage(".\n" + Indent, 3))
         == "Hello, my name is Ix5231.\n" + Indent + "I'm 19 and live in Japan."
  {
    RenderFilled(".\n" + Indent);
    FilledText();
  }

  /** Extracting again from the filled text finds nothing. */
  lemma FilledNoForms()
    ensures FormsOf("Hello, my name is Ix5231.\n" + Indent + "I'm 19 and live in Japan.") == []
  {
    GapPlain();
    StageNoForms(".\n" + Indent);
    StageEnd();
  }

  lemma StageNoForms(gap: string)
    requires '{' !in gap
    ensures FormsOf(Render(Stage(gap, 3))) == []
  {
    StageWellFormed(gap, 3);
    NoSlotsNoForms(Stage(gap, 3));
  }

  /** test_fill_form: the forms of the template, filled in order with the
      given values, give the filled text. */
  method FillFormTest() returns (forms: seq<Form>, filled: string, after: seq<Form>)
    ensures forms == NameAgePlace
    ensures filled == "Hello, my name is Ix5231.\n" + Indent + "I'm 19 and live in Japan."
    ensures after == []
  {
    var gap := ".\n" + Indent;
    var text := new Text(Template);
    forms := text.GetForms();
    FillStart(gap);
    var k := 0;
    while k < |forms|
      invariant 0 <= k <= 3
      invariant text.input == Render(Stage(gap, k))
    {
      StageStep(gap, k);
      text.FillForm(forms[k], Values[k]);
      k := k + 1;
    }
    StageEnd();
    filled := text.input;
    FilledNoForms();
    after := text.GetForms();
  }

  /** Before the loop of test_fill_form: the template is the first stage,
      it has its three forms, and the k-th form is the marker of the k-th
      name. */
  lemma FillStart(gap: string)
    requires gap == ".\n" + Indent
    ensures FormsOf(Template) == NameAgePlace && |NameAgePlace| == 3
    ensures forall k :: 0 <= k < 3 ==> NameAgePlace[k].form == Marker(Names[k])
    ensures Template == Render(Stage(gap, 0))
    ensures '{' !in gap
  {
    GetFormsMultiline();
    NamesMarkers();
    StageStart(gap);
    RenderMultiline();
    GapPlain();
  }

  /** The gap of the multi-line template holds no opening brace. */
  lemma GapPlain()
    ensures '{' !in ".\n" + Indent
  {
  }

  lemma NamesMarkers()
    ensures forall k :: 0 <= k < 3 ==> NameAgePlace[k].form == Marker(Names[k])
  {
    NameAgePlaceMarkers();
  }
}
