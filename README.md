# fill: the form engine, modelled in Dafny

`fill` is a small template-filling tool. Its core is a *form engine* over an
in-memory text buffer, `Text`. This is a model of that engine with proofs about it.

- `Text::get_forms` scans the buffer from left to right for markers `{name}`.
  It returns one `Form { name, form }` per marker: `form` is the whole marker
  and `name` is the text between the braces.
- `Text::fill_form` replaces every occurrence of a form's marker with a value,
  as Rust's `str::replace` does.

The model is made of five modules.

- `Forms` (`forms.dfy`): the form datatype and a scanner.
  - The scanner stands in for the regular expression `\{(.*?)\}` under the
    regex crate's default flags, where `.` matches anything but a newline.
  - The scanner is proved to return exactly the leftmost, shortest,
    non-overlapping matches of that pattern, and it is the only sequence
    that does.
  - On top of that come the shape, order and position facts about the
    extracted forms.
- `Replace` (`replace.dfy`): `ReplaceAll`, a recursive definition of
  `str::replace`, including the empty pattern, which inserts the replacement
  at every character boundary. It comes with the length law, the absence and
  identity laws, and the fact that within one call the inserted text is never
  searched again. A later call does search it (`Scenarios.LaterFillRescans`).
- `Fill` (`text.dfy`): the class `Text` with its mutable `input` field.
  - `GetForms` is the imperative loop that pushes one form per match. It is
    proved equal to the specification function `FormsOf`.
  - `FillForm` overwrites `input` with `ReplaceAll` of the old one.
- `Templates` (`templates.dfy`): well-formed templates, which are brace-free
  plain pieces and plainly named slots. On them, extraction lists the slots
  in order. Filling one name replaces exactly that name's slots. With a value
  that holds no `{`, it also leaves the other forms in order and leaves no
  occurrence of the filled marker.
- `Scenarios` (`scenarios.dfy`): the unit tests of `src/main.rs` as lemmas,
  and `test_fill_form` as a method that drives a `Text` object. It also
  states a few edge cases: `{}`, a `{` inside a marker, a marker broken by a
  newline, and a repeated marker.

Markers never span a line. The pattern `\{(.*?)\}` is compiled without the
`s` flag, so `.` does not match `\n`. `Scenarios.GetFormsNoLineSpan` shows
that `"{a\nb}"` has no forms.

## Model

| member | source | states |
|---|---|---|
| Forms.FindClose | src/main.rs:24 | the lazy `.*?` followed by `}`: a closing position it finds lies ahead in the text and holds `}` |
| Forms.MatchEnd | src/main.rs:24 | a match can start only at `{`, and the end it finds holds `}` further on |
| Forms.NextMatch | src/main.rs:24-27 | one step of `captures_iter`: a match it returns starts at or after `p` on a `{` and ends on a later `}` inside the text |
| Forms.Scan | src/main.rs:24-27 | the matches of `captures_iter` from `p` on: all lie after `p` inside the text, each two characters at least, so at most half as many as the characters left |
| Forms.FormAt | src/main.rs:28-31 | the form of one match: group 1 as the name and group 0 as the marker, the marker two characters longer than the name |
| Forms.FormsOf | src/main.rs:23-35 | the vector `get_forms` returns: one form per match, so at most half as many forms as characters |
| Forms.FindCloseSpec | src/main.rs:24 | the closing search stops at the first `}` with no `}` or newline before it; it fails only when every `}` ahead has a newline before it |
| Forms.MatchEndSpec | src/main.rs:24 | a match found at `i` is the shortest match of `\{(.*?)\}` starting there; none is found only when no match starts at `i` |
| Forms.NextMatchSpec | src/main.rs:24-27 | the iterator's next match is the shortest match at the leftmost position from `p` where one starts; none is returned only when no match starts from `p` on |
| Forms.LazyMatchUnique | src/main.rs:24 | at a given start there is at most one shortest match |
| Forms.ScanLeftmost | src/main.rs:24-32 | the matches the iterator yields are shortest matches, strictly increasing and non-overlapping, and every position where a match could start lies inside one of them |
| Forms.ScanUnique | src/main.rs:24-32 | any sequence of matches with those properties is exactly the iterator's sequence |
| Forms.LazyMatchShape | src/main.rs:24 | a shortest match is `{`, a name with no `}` and no newline, then `}` |
| Forms.FormsIn | src/main.rs:27-32 | the loop body maps each match to one form, so there are exactly as many forms as matches |
| Forms.FormsFrom | src/main.rs:27-32 | the forms the loop still adds from a position: one per remaining match, at most half as many as the characters left |
| Forms.FormsInAt | src/main.rs:27-32 | the k-th form pushed is the form of the k-th match: group 1 as the name, group 0 as the marker |
| Forms.FormsShape | src/main.rs:24-31 | every extracted form is its name in braces, and no name contains `}` or a newline |
| Forms.FormsPositions | src/main.rs:27-32 | there is one form per match; each form's marker occurs in the text at its match's position; positions strictly increase without overlapping |
| Forms.NoFormsIff | src/main.rs:21-34 | extraction returns the empty vector exactly when no match starts anywhere in the text |
| Forms.NoBraceNoForms | src/main.rs:21-22 | a text with no `{` or with no `}` yields no forms, not an error |
| Forms.ScanShift | src/main.rs:27 | scanning a text from where a suffix begins finds the suffix's own matches, moved along |
| Forms.FormsFromSuffix | src/main.rs:27-32 | the forms found from where a suffix begins are the forms of the suffix alone |
| Forms.NextMatchSkip | src/main.rs:27 | the iterator skips text with no `{` without finding a match |
| Forms.FindCloseRun | src/main.rs:24 | the closing search over characters that are neither `}` nor newline reaches the next `}` |
| Forms.BraceFreePrefix | src/main.rs:24-32 | text with no `{` in front of another text adds no forms |
| Forms.MarkerAtFront | src/main.rs:24-32 | a marker with a plain name in front yields its form, followed by the forms of the rest |
| Replace.ReplaceAll | src/main.rs:38 | `str::replace`, literal and global; a text shorter than a non-empty pattern comes back unchanged |
| Replace.Count | src/main.rs:38 | the number of occurrences `str::replace` replaces; occurrences of a non-empty pattern do not overlap, so together they take at most the whole text |
| Replace.CountCopy | src/main.rs:38 | text before the first occurrence adds nothing to the count |
| Replace.CountLeftmost | src/main.rs:38 | the leftmost occurrence counts once and counting continues after it, so the count is the number of occurrences `ReplaceLeftmost` replaces |
| Replace.ReplaceLength | src/main.rs:38 | replacing `k` occurrences changes the length by `k * (|replace_text| - |form|)` |
| Replace.CountZeroIff | src/main.rs:38 | for a non-empty pattern, nothing is replaced exactly when the pattern does not occur |
| Replace.ReplaceAbsent | src/main.rs:38 | a non-empty marker that does not occur leaves the text unchanged |
| Replace.ReplaceSelf | src/main.rs:38 | replacing a marker with itself is the identity, the empty pattern included |
| Replace.ReplaceCopy | src/main.rs:38 | text before the first occurrence is copied unchanged, and replacement continues after it |
| Replace.ReplaceLeftmost | src/main.rs:38 | the leftmost occurrence is replaced and processing continues in the original text after it, so within one call the inserted text is never searched again |
| Fill.Text.constructor | src/main.rs:15-19 | a new `Text` holds the given input |
| Fill.Text.GetForms | src/main.rs:23-35 | the pushed vector equals the forms of the leftmost-shortest matches of the input, in order; the method reads `input` and changes nothing |
| Fill.Text.FillForm | src/main.rs:37-39 | `input` becomes the old input with every leftmost, non-overlapping occurrence of `form.form` replaced by `replace_text`; nothing else changes |
| Templates.FormsOfRender | src/main.rs:24-32 | on a well-formed template, extraction yields exactly the slots' forms, in order, duplicates included |
| Templates.NoMarkerInText | src/main.rs:38 | no occurrence of a marker starts inside text with no `{` |
| Templates.NoMarkerInOtherMarker | src/main.rs:38 | no occurrence of one marker starts inside the marker of a different plain name |
| Templates.FillRender | src/main.rs:37-39 | filling the form `name` of a well-formed template replaces exactly the slots of that name with the value, and nothing else |
| Templates.FillSlotsForms | src/main.rs:37-39 | filling with a brace-free value keeps the template well-formed, and removes exactly that name's forms from what extraction finds |
| Templates.FillAgain | src/main.rs:37-39 | on a well-formed template, after a fill with a value that holds no `{`, filling the same form again changes nothing |
| Templates.NoMarkerLeft | src/main.rs:37-39 | after filling a form of a well-formed template with a brace-free value, its marker no longer occurs |
| Templates.RefillAfterBrace | src/main.rs:37-39 | on the well-formed template `{a}a}`, filling `a` with `{` joins a new `{a}`, and a second fill of `a` then replaces it |
| Templates.MarkerCanBeLeft | src/main.rs:38 | outside well-formed templates a fill can leave its marker behind: removing `{name}` from `{{name}name}` gives `{name}` |
| Templates.Without | src/main.rs:37-39 | the forms kept after a fill all have another name and were among the forms before |
| Templates.NoSlotsNoForms | src/main.rs:21-22 | once no slot is left, extraction returns the empty vector |
| Scenarios.GetFormsSingle | src/main.rs:88-91 | `"Hello, my name is {name}."` has the single form `name`/`{name}` |
| Scenarios.GetFormsMultiple | src/main.rs:94-101 | the one-line text has the forms name, age and place, in that order |
| Scenarios.GetFormsNone | src/main.rs:104 | `"Hello"` has no forms |
| Scenarios.GetFormsMultiline | src/main.rs:107-118 | the two-line text, with its second line indented by 22 spaces, has the forms name, age and place, in that order |
| Scenarios.TemplateForms | src/main.rs:94-118 | the test template has forms name, age and place whatever brace-free text separates its sentences |
| Scenarios.GetFormsRepeated | src/main.rs:27-32 | a repeated marker yields one entry per occurrence |
| Scenarios.GetFormsEmptyBraces | src/main.rs:24 | `{}` yields a form with an empty name |
| Scenarios.GetFormsInnerOpen | src/main.rs:24 | a `{` inside a marker becomes part of the name: `{a{b}` yields name `a{b` |
| Scenarios.GetFormsNoLineSpan | src/main.rs:24 | a marker never spans a newline: `"{a\nb}"` has no forms |
| Scenarios.FillEmptyBraces | src/main.rs:38 | filling `{}` with `X` gives `X` |
| Scenarios.FillCanLoseForm | src/main.rs:37-39 | a value with `{` can swallow a later form: filling `a` of `{a} {b}` with `{` gives `{ {b}`, whose only form is named ` {b` |
| Scenarios.LaterFillRescans | src/main.rs:37-39 | across `fill_form` calls the inserted text is searched again: filling `a` of `{a} {b}` with `{b}` and then `b` with `x` gives `x x` |
| Scenarios.StageStep | src/main.rs:137-140 | filling the k-th extracted form with the k-th value turns exactly the k-th slot into that value |
| Scenarios.FillFormTest | src/main.rs:122-146 | on a `Text` holding the two-line template, `GetForms` returns name, age and place; filling them in order with `Ix5231`, `19` and `Japan` yields the filled text; extracting again finds nothing |
| Scenarios.FilledNoForms | src/main.rs:141-145 | the filled text of `test_fill_form` has no forms left |

## Left out

- `usage`, `show` and `main` (src/main.rs:55-79) are left out. They print the usage text, open and echo a file line by line, read `env::args` and call `process::exit`, which is console and file I/O with nothing to verify.
- The regex crate (src/main.rs:1, 24) is a foreign library. It is replaced by the scanner in `Forms`. `Regex::new(..).unwrap()` cannot fail on this fixed, valid pattern, so the model has no error path for it.
- `Cow<'a, str>` and its lifetimes (src/main.rs:2, 9-19, 38) decide whether the buffer is borrowed or owned. That is memory management, so `input` is a plain `string`.
- Text is a sequence of characters. UTF-8 encoding and byte offsets are not modelled, which causes no loss because the pattern and `str::replace` both work on whole characters.
- `Form::new` (src/main.rs:50-52) is the datatype constructor `Form(name, form)`.
- The derived `PartialEq`/`Eq` of `Form` (src/main.rs:43) is datatype equality. The derived `Debug` formatting is not modelled.
- `Text::get_forms` takes `&self` (src/main.rs:23). `Fill.Text.GetForms` has no `modifies` clause, so the buffer it reads is unchanged by the language's framing rather than by an `ensures`.
- In `test_fill_form`, `forms.iter_mut().zip(&input)` (src/main.rs:138) is modelled as a loop over the indices. Both sequences have three elements, so the zip's stop at the shorter sequence does not arise.
- Templates.FillSlotsForms: holds only for values with no `{`. A value with `{` can join with the text after it into a different marker (`Scenarios.FillCanLoseForm`).
- Templates.FillAgain: holds only when the first value holds no `{`. A `{` in the value can join the text after the marker into a new marker of the same form, even on a well-formed template, and the second fill then replaces it (`Templates.RefillAfterBrace`).
- Templates.NoMarkerLeft: holds only for well-formed templates and brace-free values. `str::replace` does not rescan its output, so in general a fill can join a new occurrence of the marker out of the text around a removed one (`Templates.MarkerCanBeLeft`).
