/**
 * Adding a custom field to the session form: the label is taken from the
 * caller or, failing that, from the user's answer to a prompt, and becomes the
 * field name `custom-` followed by the lower-cased label with every run of
 * whitespace made one `-`.
 *
 * The prompt is the `answer` parameter; the elements the field is shown with
 * are reduced to the label text, the field name and the initial value.
 */
module CustomFields {
  import opened JsBuiltins
  import opened SessionModel
  import opened SessionEditing

  /** `s` without its leading whitespace. */
  function DropWhitespace(s: string): (r: string)
    ensures |r| <= |s| && r == s[|s| - |r|..]
    ensures r == [] || !IsWhitespace(r[0])
    ensures forall i :: 0 <= i < |s| - |r| ==> IsWhitespace(s[i])
  {
    if s != [] && IsWhitespace(s[0]) then DropWhitespace(s[1..]) else s
  }

  /** `s.replace(/\s+/g, [sep])`: every maximal run of whitespace becomes one
      `sep`. */
  function Collapse(s: string, sep: char): (r: string)
    ensures |r| <= |s|
    ensures r == [] <==> s == []
    ensures forall i :: 0 <= i < |r| ==> r[i] == sep || !IsWhitespace(r[i])
    decreases |s|
  {
    if s == [] then []
    else if IsWhitespace(s[0]) then [sep] + Collapse(DropWhitespace(s[1..]), sep)
    else [s[0]] + Collapse(s[1..], sep)
  }

  /** Every character of the result is `sep` or one of the input's. */
  lemma {:induction false} CollapseDrawsFrom(s: string, sep: char)
    ensures forall i :: 0 <= i < |Collapse(s, sep)| ==> Collapse(s, sep)[i] == sep || Collapse(s, sep)[i] in s
    decreases |s|
  {
    if s != [] {
      var rest := if IsWhitespace(s[0]) then DropWhitespace(s[1..]) else s[1..];
      assert rest == s[|s| - |rest|..];
      CollapseDrawsFrom(rest, sep);
    }
  }

  /** A string without whitespace is left as it is. */
  lemma {:induction false} CollapseNoWhitespace(s: string, sep: char)
    requires forall i :: 0 <= i < |s| ==> !IsWhitespace(s[i])
    ensures Collapse(s, sep) == s
  {
    if s != [] {
      CollapseNoWhitespace(s[1..], sep);
    }
  }

  /** A whitespace run followed by a non-whitespace character (or the end)
      becomes one `sep`. */
  lemma {:induction false} CollapseRun(w: string, b: string, sep: char)
    requires |w| > 0 && forall i :: 0 <= i < |w| ==> IsWhitespace(w[i])
    requires b == [] || !IsWhitespace(b[0])
    ensures Collapse(w + b, sep) == [sep] + Collapse(b, sep)
  {
    assert (w + b)[0] == w[0];
    assert (w + b)[1..] == w[1..] + b;
    DropRun(w[1..], b);
  }

  lemma {:induction false} DropRun(w: string, b: string)
    requires forall i :: 0 <= i < |w| ==> IsWhitespace(w[i])
    requires b == [] || !IsWhitespace(b[0])
    ensures DropWhitespace(w + b) == b
  {
    if w == [] {
      assert w + b == b;
    } else {
      assert (w + b)[1..] == w[1..] + b;
      DropRun(w[1..], b);
    }
  }

  /** A non-whitespace character is kept as it is. */
  lemma CollapseKeeps(c: char, s: string, sep: char)
    requires !IsWhitespace(c)
    ensures Collapse([c] + s, sep) == [c] + Collapse(s, sep)
  {
    assert ([c] + s)[1..] == s;
  }

  /** A string that starts with whitespace and ends without it splits into
      its leading whitespace run and the rest. */
  lemma LeadingRun(a: string) returns (w: string, d: string)
    requires |a| > 0 && IsWhitespace(a[0]) && !IsWhitespace(a[|a| - 1])
    ensures a == w + d && d == DropWhitespace(a[1..])
    ensures |w| > 0 && forall i :: 0 <= i < |w| ==> IsWhitespace(w[i])
    ensures |d| > 0 && !IsWhitespace(d[0]) && d[|d| - 1] == a[|a| - 1]
  {
    d := DropWhitespace(a[1..]);
    w := a[..|a| - |d|];
    assert a == w + d;
    assert !IsWhitespace(a[1..][|a| - 2]);
    forall i | 0 <= i < |w| ensures IsWhitespace(w[i]) {
      if i > 0 { assert w[i] == a[1..][i - 1]; }
    }
  }

  /** Collapsing works piecewise across a boundary that does not split a
      whitespace run. */
  lemma {:induction false} CollapseAppend(a: string, b: string, sep: char)
    requires a == [] || !IsWhitespace(a[|a| - 1])
    ensures Collapse(a + b, sep) == Collapse(a, sep) + Collapse(b, sep)
    decreases |a|
  {
    if a == [] {
      assert a + b == b;
    } else if IsWhitespace(a[0]) {
      var w, d := LeadingRun(a);
      CollapseAppend(d, b, sep);
      RunThenAppend(w, d, b, sep);
    } else {
      CollapseAppend(a[1..], b, sep);
      KeepThenAppend(a[0], a[1..], b, sep);
      assert a == [a[0]] + a[1..];
    }
  }

  lemma {:induction false} RunThenAppend(w: string, d: string, b: string, sep: char)
    requires |w| > 0 && forall i :: 0 <= i < |w| ==> IsWhitespace(w[i])
    requires |d| > 0 && !IsWhitespace(d[0])
    requires Collapse(d + b, sep) == Collapse(d, sep) + Collapse(b, sep)
    ensures Collapse(w + d + b, sep) == Collapse(w + d, sep) + Collapse(b, sep)
  {
    assert w + d + b == w + (d + b);
    CollapseRun(w, d + b, sep);
    CollapseRun(w, d, sep);
    ConsAppend(sep, Collapse(w + d + b, sep), Collapse(d + b, sep), Collapse(d, sep),
               Collapse(b, sep), Collapse(w + d, sep));
  }

  lemma {:induction false} KeepThenAppend(c: char, t: string, b: string, sep: char)
    requires !IsWhitespace(c)
    requires Collapse(t + b, sep) == Collapse(t, sep) + Collapse(b, sep)
    ensures Collapse([c] + t + b, sep) == Collapse([c] + t, sep) + Collapse(b, sep)
  {
    assert [c] + t + b == [c] + (t + b);
    CollapseKeeps(c, t + b, sep);
    CollapseKeeps(c, t, sep);
    ConsAppend(c, Collapse([c] + t + b, sep), Collapse(t + b, sep), Collapse(t, sep),
               Collapse(b, sep), Collapse([c] + t, sep));
  }

  /** Sequence bookkeeping for the two lemmas above, kept apart from
      `Collapse` so that the solver does not unfold it. */
  lemma ConsAppend(x: char, whole: string, rest: string, p: string, q: string, front: string)
    requires whole == [x] + rest && rest == p + q && front == [x] + p
    ensures whole == front + q
  {
  }

  /** Replacing the separator afterwards is the same as collapsing with the
      other separator, when the first one does not occur in the input. */
  lemma {:induction false} CollapseSwapSeparator(s: string, a: char, b: char)
    requires forall i :: 0 <= i < |s| ==> s[i] != a
    ensures ReplaceChar(Collapse(s, a), a, b) == Collapse(s, b)
    decreases |s|
  {
    if s != [] {
      var rest := if IsWhitespace(s[0]) then DropWhitespace(s[1..]) else s[1..];
      assert rest == s[|s| - |rest|..];
      CollapseSwapSeparator(rest, a, b);
      var head := if IsWhitespace(s[0]) then a else s[0];
      assert Collapse(s, a) == [head] + Collapse(rest, a);
      ReplaceAppend([head], Collapse(rest, a), a, b);
    }
  }

  lemma ReplaceAppend(p: string, q: string, x: char, y: char)
    ensures ReplaceChar(p + q, x, y) == ReplaceChar(p, x, y) + ReplaceChar(q, x, y)
  {
  }

  /** Collapsing twice, the first time with a whitespace separator, is the
      same as collapsing once. */
  lemma {:induction false} CollapseTwice(s: string, a: char, b: char)
    requires IsWhitespace(a)
    ensures Collapse(Collapse(s, a), b) == Collapse(s, b)
    decreases |s|
  {
    if s != [] {
      if IsWhitespace(s[0]) {
        var d := DropWhitespace(s[1..]);
        assert |d| < |s|;
        var t := Collapse(d, a);
        assert t == [] || t[0] == d[0];
        CollapseRun([a], t, b);
        CollapseTwice(d, a, b);
      } else {
        CollapseTwice(s[1..], a, b);
      }
    }
  }

  /** The name of a field labelled `text`. */
  function Slug(text: string): (name: string)
    ensures StartsWith(name, CustomPrefix) && !StartsWith(name, SteepPrefix)
    ensures forall i :: 0 <= i < |name| ==> !IsWhitespace(name[i]) && !IsUpperAscii(name[i])
    ensures |name| > |CustomPrefix| <==> text != []
  {
    var name := CustomPrefix + Collapse(ToLower(text), '-');
    assert name[..|CustomPrefix|] == CustomPrefix;
    CollapseDrawsFrom(ToLower(text), '-');
    FirstCharMismatch(name, SteepPrefix);
    name
  }

  /** A field added to the form: its label text, its name and its value. */
  datatype NewField = NewField(caption: string, name: string, value: string)

  /** `addCustomField(labelName, initialValue)`: an absent or empty label is
      asked for; an absent or empty answer adds nothing. */
  function AddCustomField(labelName: Option<string>, answer: Option<string>, initialValue: string): (r: Option<NewField>)
    ensures labelName.Some? && labelName.value != "" ==>
      r == Some(NewField(labelName.value + ":", Slug(labelName.value), initialValue))
    ensures (labelName.None? || labelName.value == "") && answer.Some? && answer.value != "" ==>
      r == Some(NewField(answer.value + ":", Slug(answer.value), initialValue))
    ensures r.None? <==> (labelName.None? || labelName.value == "") && (answer.None? || answer.value == "")
  {
    var text := if labelName.Some? && labelName.value != "" then labelName else answer;
    if text.None? || text.value == "" then None
    else Some(NewField(text.value + ":", Slug(text.value), initialValue))
  }

  /** Saving the form stores an added field as a custom field under its name,
      with the text it holds. */
  lemma AddedFieldIsSaved(f: NewField, text: string)
    requires StartsWith(f.name, CustomPrefix)
    ensures CustomEntries([FormEntry(f.name, Text(text))]) == [CustomField(f.name, text)]
    ensures SteepEntries([FormEntry(f.name, Text(text))]) == []
  {
    FirstCharMismatch(f.name, SteepPrefix);
    ClassifyOne(FormEntry(f.name, Text(text)));
  }

  /** The label a field is re-created with when its session is edited is its
      lower-cased label with whitespace runs made single spaces, provided the
      label has no `-`. */
  lemma EditLabelOfSlug(text: string)
    requires forall i :: 0 <= i < |text| ==> text[i] != '-'
    ensures EditLabel(Slug(text)) == Collapse(ToLower(text), ' ')
  {
    var lower := ToLower(text);
    EditLabelOfCustomName(Collapse(lower, '-'));
    CollapseSwapSeparator(lower, '-', ' ');
  }

  /** Editing a session re-creates each custom field under the name it was
      stored with, when its label had no `-`: the edit neither prompts nor
      renames the column. */
  lemma EditKeepsFieldName(text: string, answer: Option<string>, value: string)
    requires text != []
    requires forall i :: 0 <= i < |text| ==> text[i] != '-'
    ensures var relabel := EditLabel(Slug(text));
      AddCustomField(Some(relabel), answer, value) == Some(NewField(relabel + ":", Slug(text), value))
  {
    var lower := ToLower(text);
    EditLabelOfSlug(text);
    var spaced := Collapse(lower, ' ');
    assert ToLower(spaced) == spaced;
    CollapseTwice(lower, ' ', '-');
  }

  /** A label with a doubled `-` is renamed by an edit: `x--y` is stored as
      `custom-x--y`, shown for editing as `x  y`, and saved back as
      `custom-x-y`. */
  lemma EditRenamesDoubledHyphen(x: char, y: char)
    requires IsLowerAscii(x) && IsLowerAscii(y)
    ensures Slug([x, '-', '-', y]) == CustomPrefix + [x, '-', '-', y]
    ensures EditLabel(Slug([x, '-', '-', y])) == [x, ' ', ' ', y]
    ensures Slug(EditLabel(Slug([x, '-', '-', y]))) == CustomPrefix + [x, '-', y]
    ensures Slug(EditLabel(Slug([x, '-', '-', y]))) != Slug([x, '-', '-', y])
  {
    SlugOfDoubledHyphen(x, y);
    EditLabelOfCustomName([x, '-', '-', y]);
    assert ReplaceChar([x, '-', '-', y], '-', ' ') == [x, ' ', ' ', y];
    SlugOfSpacedLabel(x, y);
    assert (CustomPrefix + [x, '-', y])[|CustomPrefix| + 2] == y;
  }

  lemma SlugOfDoubledHyphen(x: char, y: char)
    requires IsLowerAscii(x) && IsLowerAscii(y)
    ensures Slug([x, '-', '-', y]) == CustomPrefix + [x, '-', '-', y]
  {
    assert ToLower([x, '-', '-', y]) == [x, '-', '-', y];
    CollapseNoWhitespace([x, '-', '-', y], '-');
  }

  lemma SlugOfSpacedLabel(x: char, y: char)
    requires IsLowerAscii(x) && IsLowerAscii(y)
    ensures Slug([x, ' ', ' ', y]) == CustomPrefix + [x, '-', y]
  {
    assert ToLower([x, ' ', ' ', y]) == [x, ' ', ' ', y];
    SpacedCollapse(x, y);
  }

  lemma SpacedCollapse(x: char, y: char)
    requires IsLowerAscii(x) && IsLowerAscii(y)
    ensures Collapse([x, ' ', ' ', y], '-') == [x, '-', y]
  {
    var t := [' ', ' '] + [y];
    CollapseNoWhitespace([y], '-');
    CollapseRun([' ', ' '], [y], '-');
    assert Collapse(t, '-') == ['-', y];
    CollapseKeeps(x, t, '-');
    assert [x] + t == [x, ' ', ' ', y];
  }
}
