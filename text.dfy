/** The input text of the fill tool: a buffer that forms are read from and
    filled in, in place. */
module Fill {
  import opened Forms
  import opened Replace

  class Text {
    var input: string

    /** A text holding a copy of `input`. */
    constructor (input: string)
      ensures this.input == input
    {
      this.input := input;
    }

    /** The forms of the input, in the order they appear; empty when the
        input has none. The input is only read. */
    method GetForms() returns (result: seq<Form>)
      ensures result == FormsOf(input)
    {
      result := [];
      var p := 0;
      while true
        invariant p <= |input|
        invariant result + FormsFrom(input, p) == FormsOf(input)
        decreases |input| - p
      {
        var next := NextMatch(input, p);
        if next.None? {
          FormsFromNone(input, p);
          break;
        }
        var m := next.value;
        FormsFromAppend(input, p, m, result);
        result := result + [FormAt(input, m)];
        p := m.stop + 1;
      }
    }

    /** Replaces every occurrence of the form's marker by `replaceText`. */
    method FillForm(form: Form, replaceText: string)
      modifies this
      ensures input == ReplaceAll(old(input), form.form, replaceText)
    {
      input := ReplaceAll(input, form.form, replaceText);
    }
  }
}
