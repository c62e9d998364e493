/** Well-formed templates: text made of brace-free pieces and markers
    `{name}` whose names hold no brace and no newline. On such text the
    form engine does what the tool is for: extraction lists the markers in
    order, and filling a form replaces exactly the markers of that name.
 */
module Templates {
  import opened Forms
  import opened Replace

  /** A piece of a template: plain text, or a marker for a named slot. */
  datatype Piece = Plain(text: string) | Slot(name: string)

  /** A name that the pattern captures whole. */
  predicate PlainName(n: string)
  {
    '{' !in n && '}' !in n && '\n' !in n
  }

  /** Plain pieces hold no opening brace, slot names are plain. */
  predicate WellFormed(ps: seq<Piece>)
  {
    forall k :: 0 <= k < |ps| ==>
      match ps[k]
      case Plain(t) => '{' !in t
      case Slot(n) => PlainName(n)
  }

  /** The text of one piece. */
  function PieceText(p: Piece): string
  {
    match p
    case Plain(t) => t
    case Slot(n) => Marker(n)
  }

  /** The forms one piece contributes. */
  function PieceForms(p: Piece): seq<Form>
  {
    match p
    case Plain(_) => []
    case Slot(n) => [Form(n, Marker(n))]
  }

  /** The text of a template. */
  function Render(ps: seq<Piece>): string
  {
    if ps == [] then [] else PieceText(ps[0]) + Render(ps[1..])
  }

  /** The forms of the slots, in order. */
  function SlotForms(ps: seq<Piece>): seq<Form>
  {
    if ps == [] then [] else PieceForms(ps[0]) + SlotForms(ps[1..])
  }

  /** Rendering and listing the slots of a template one piece at a time. */
  lemma RenderCons(p: Piece, rest: seq<Piece>)
    ensures Render([p] + rest) == PieceText(p) + Render(rest)
  {
    assert ([p] + rest)[1..] == rest;
  }

  lemma SlotFormsCons(p: Piece, rest: seq<Piece>)
    ensures SlotForms([p] + rest) == PieceForms(p) + SlotForms(rest)
  {
    assert ([p] + rest)[1..] == rest;
  }

  /** The template with every slot named `name` filled with `value`. */
  function FillSlots(ps: seq<Piece>, name: string, value: string): (r: seq<Piece>)
    ensures |r| == |ps|
    ensures forall k :: 0 <= k < |ps| ==>
      r[k] == (if ps[k] == Slot(name) then Plain(value) else ps[k])
  {
    if ps == [] then []
    else [if ps[0] == Slot(name) then Plain(value) else ps[0]] + FillSlots(ps[1..], name, value)
  }

  /** Extraction on a well-formed template lists its slots in order. */
  lemma {:induction false} FormsOfRender(ps: seq<Piece>)
    requires WellFormed(ps)
    ensures FormsOf(Render(ps)) == SlotForms(ps)
  {
    if ps != [] {
      assert WellFormed(ps[1..]);
      FormsOfRender(ps[1..]);
      match ps[0]
      case Plain(t) =>
        BraceFreePrefix(t, Render(ps[1..]));
      case Slot(n) =>
        MarkerAtFront(n, Render(ps[1..]));
    }
  }

  /** An occurrence of a marker is an opening brace, the name, and a
      closing brace. */
  lemma OccursAtMarker(s: string, n: string, i: nat)
    ensures OccursAt(s, Marker(n), i) ==> s[i] == '{' && s[i + |n| + 1] == '}'
    ensures OccursAt(s, Marker(n), i) ==> forall k :: 0 <= k < |n| ==> s[i + 1 + k] == n[k]
  {
    var pat := Marker(n);
    if OccursAt(s, pat, i) {
      assert s[i..i + |pat|] == pat;
      assert s[i] == s[i..i + |pat|][0];
      assert s[i + |n| + 1] == s[i..i + |pat|][|n| + 1];
      forall k | 0 <= k < |n|
        ensures s[i + 1 + k] == n[k]
      {
        assert s[i + 1 + k] == s[i..i + |pat|][1 + k];
      }
    }
  }

  /** No marker occurrence starts inside brace-free text. */
  lemma NoMarkerInText(t: string, rest: string, n: string)
    requires '{' !in t
    ensures forall i :: 0 <= i < |t| ==> !OccursAt(t + rest, Marker(n), i)
  {
    forall i | 0 <= i < |t|
      ensures !OccursAt(t + rest, Marker(n), i)
    {
      OccursAtMarker(t + rest, n, i);
      assert (t + rest)[i] == t[i];
    }
  }

  /** No occurrence of the marker of `n` starts inside the marker of a
      different plain name `m`. */
  lemma NoMarkerInOtherMarker(m: string, rest: string, n: string)
    requires PlainName(m) && '}' !in n && m != n
    ensures forall i :: 0 <= i < |Marker(m)| ==> !OccursAt(Marker(m) + rest, Marker(n), i)
  {
    var s := Marker(m) + rest;
    assert s[0] == '{' && s[|m| + 1] == '}';
    assert forall k :: 0 <= k < |m| ==> s[1 + k] == m[k];
    forall i | 0 <= i < |Marker(m)|
      ensures !OccursAt(s, Marker(n), i)
    {
      OccursAtMarker(s, n, i);
    }
  }

  /** Filling the form `name` of a well-formed template replaces exactly its
      slots; the value is inserted as it is and never searched again. */
  lemma {:induction false} FillRender(ps: seq<Piece>, name: string, value: string)
    requires WellFormed(ps) && '}' !in name
    ensures ReplaceAll(Render(ps), Marker(name), value) == Render(FillSlots(ps, name, value))
  {
    var pat := Marker(name);
    if ps == [] {
    } else {
      var rest := Render(ps[1..]);
      assert WellFormed(ps[1..]);
      FillRender(ps[1..], name, value);
      var filled := FillSlots(ps, name, value);
      assert filled[1..] == FillSlots(ps[1..], name, value);
      match ps[0]
      case Plain(t) =>
        NoMarkerInText(t, rest, name);
        ReplaceCopy(t, rest, pat, value);
      case Slot(n) =>
        if n == name {
          ReplaceAtPrefix(pat, rest, value);
        } else {
          NoMarkerInOtherMarker(n, rest, name);
          ReplaceCopy(Marker(n), rest, pat, value);
        }
    }
  }

  /** Filling with a value that has no opening brace keeps the template
      well-formed, and removes the form from what extraction finds while
      keeping the others in order. */
  lemma {:induction false} FillSlotsForms(ps: seq<Piece>, name: string, value: string)
    requires WellFormed(ps) && '{' !in value
    ensures WellFormed(FillSlots(ps, name, value))
    ensures SlotForms(FillSlots(ps, name, value)) == Without(SlotForms(ps), name)
  {
    if ps != [] {
      assert WellFormed(ps[1..]);
      FillSlotsForms(ps[1..], name, value);
      var filled := FillSlots(ps, name, value);
      assert filled[1..] == FillSlots(ps[1..], name, value);
      var rest := SlotForms(ps[1..]);
      if ps[0].Slot? {
        assert ([Form(ps[0].name, Marker(ps[0].name))] + rest)[1..] == rest;
      } else {
        assert [] + rest == rest;
      }
    }
  }

  /** On a well-formed template, once the form `name` is filled with a
      value that holds no `{`, filling it again changes nothing: with a
      repeated marker, the second `fill_form` for the same marker finds no
      occurrence left.  `RefillAfterBrace` shows the condition on the value
      is needed. */
  lemma FillAgain(ps: seq<Piece>, name: string, value: string, value': string)
    requires WellFormed(ps) && '{' !in value && '}' !in name
    ensures ReplaceAll(Render(FillSlots(ps, name, value)), Marker(name), value')
         == Render(FillSlots(ps, name, value))
  {
    var filled := FillSlots(ps, name, value);
    FillSlotsForms(ps, name, value);
    FillRender(filled, name, value');
    assert FillSlots(filled, name, value') == filled;
  }

  /** After a fill of a well-formed template with a brace-free value, no
      occurrence of the filled marker is left. */
  lemma NoMarkerLeft(ps: seq<Piece>, name: string, value: string)
    requires WellFormed(ps) && '{' !in value && '}' !in name
    ensures !Occurs(Render(FillSlots(ps, name, value)), Marker(name))
  {
    var pat := Marker(name);
    var text := Render(FillSlots(ps, name, value));
    FillAgain(ps, name, value, []);
    ReplaceLength(text, pat, []);
    ZeroProduct(Count(text, pat), |pat|);
    CountZeroIff(text, pat);
  }

  lemma ZeroProduct(c: nat, n: nat)
    requires 0 < n && c * (0 - n) == 0
    ensures c == 0
  {
    assert c * (0 - n) == -(c * n);
  }

  /** Outside well-formed templates the promise fails: removing `{name}`
      from `{{name}name}` joins a new `{name}` out of the text around it. */
  lemma MarkerCanBeLeft()
    ensures ReplaceAll("{{name}name}", "{name}", "") == "{name}"
    ensures Occurs("{name}", "{name}")
  {
    var pat, rest := "{name}", "name}";
    JoinedMarker(pat, rest);
    ReplaceSkipHead('{', pat + rest, pat, []);
    ReplaceAtPrefix(pat, rest, []);
    assert ReplaceAll(rest, pat, []) == rest;
    assert OccursAt(pat, pat, 0);
  }

  lemma JoinedMarker(pat: string, rest: string)
    requires pat == "{name}" && rest == "name}"
    ensures "{{name}name}" == ['{'] + (pat + rest)
    ensures !(pat <= ['{'] + (pat + rest))
    ensures ['{'] + ([] + rest) == "{name}"
  {
    assert (['{'] + (pat + rest))[1] != pat[1];
  }

  /** `FillAgain` needs the first value to hold no `{`, even on a
      well-formed template: in `{a}a}` the form `a` is filled with `{`, which
      joins the remaining `a}` into a new marker `{a}`, and a second fill of
      the same form replaces it. */
  lemma RefillAfterBrace()
    ensures WellFormed([Slot("a"), Plain("a}")])
    ensures Render([Slot("a"), Plain("a}")]) == "{a}a}"
    ensures ReplaceAll("{a}a}", "{a}", "{") == "{a}"
    ensures ReplaceAll("{a}", "{a}", "v") == "v"
  {
    var pat, rest := "{a}", "a}";
    var ps := [Slot("a"), Plain("a}")];
    assert PlainName("a");
    assert '{' !in rest;
    assert Render(ps[1..]) == rest + Render([]);
    assert Render(ps) == pat + rest;
    ReplaceAtPrefix(pat, rest, "{");
    assert ReplaceAll(rest, pat, "{") == rest;
    assert "{" + rest == pat;
    ReplaceAtPrefix(pat, [], "v");
    assert pat + [] == pat;
  }

  /** The forms not named `name`, in order. */
  function Without(fs: seq<Form>, name: string): (r: seq<Form>)
    ensures forall f :: f in r ==> f in fs && f.name != name
  {
    if fs == [] then []
    else if fs[0].name == name then Without(fs[1..], name)
    else [fs[0]] + Without(fs[1..], name)
  }

  /** A template with no slots has no forms: filling every form leaves
      nothing for a second extraction. */
  lemma NoSlotsNoForms(ps: seq<Piece>)
    requires WellFormed(ps)
    requires forall k :: 0 <= k < |ps| ==> ps[k].Plain?
    ensures FormsOf(Render(ps)) == []
  {
    FormsOfRender(ps);
    NoSlotsEmpty(ps);
  }

  lemma {:induction false} NoSlotsEmpty(ps: seq<Piece>)
    requires forall k :: 0 <= k < |ps| ==> ps[k].Plain?
    ensures SlotForms(ps) == []
  {
    if ps != [] {
      NoSlotsEmpty(ps[1..]);
    }
  }
}
