/**
 * Delta computation: a raw diff per field (`headings`, `html`, `text`) from
 * the diff collaborator, optionally post-processed by its `applyTextDiff` for
 * the two text-like fields, and `hasDelta`, which decides whether the delta
 * says anything; a delta that does not becomes null.
 */
module DeltaComputor {
  import opened JsValues

  /** The diff collaborator: `diff.diff` and, when the library has it,
      `diff.applyTextDiff`. Both are opaque here. */
  datatype DiffLib = DiffLib(diff: (Value, Value) -> Value, applyTextDiff: Option<Value -> Value>)

  /** `diff.applyTextDiff ? diff.applyTextDiff(raw) : raw`. */
  function TextDiff(lib: DiffLib, raw: Value): Value
  {
    match lib.applyTextDiff
    case Some(post) => post(raw)
    case None => raw
  }

  /** The object `{headings, html, text}`. */
  function DeltaObject(headings: Value, html: Value, text: Value): Value
  {
    Obj(map["headings" := headings, "html" := html, "text" := text])
  }

  /** The delta `trackPage` builds from the previous and the current
      snapshot before normalising it. */
  function RawDelta(lib: DiffLib, previous: Value, current: Value): Value
  {
    DeltaObject(
      lib.diff(Field(previous, "headings"), Field(current, "headings")),
      TextDiff(lib, lib.diff(Field(previous, "html"), Field(current, "html"))),
      TextDiff(lib, lib.diff(Field(previous, "text"), Field(current, "text"))))
  }

  /** The rule for `html` and `text`: truthy, and not an empty array. */
  predicate NonEmptyDiff(v: Value)
  {
    Truthy(v) && (!v.Arr? || |v.items| != 0)
  }

  /** `hasDelta`. Note the asymmetry of the source: any truthy `headings`
      counts, an empty array included, while `html` and `text` must be
      non-empty arrays when they are arrays. */
  predicate HasDelta(delta: Value)
    ensures HasDelta(delta) ==>
      delta.Obj? && ("headings" in delta.fields || "html" in delta.fields || "text" in delta.fields)
  {
    if !Truthy(delta) then false
    else if Truthy(Field(delta, "headings")) then true
    else if Truthy(Field(delta, "html"))
         && (!Field(delta, "html").Arr? || |Field(delta, "html").items| != 0) then true
    else if Truthy(Field(delta, "text"))
         && (!Field(delta, "text").Arr? || |Field(delta, "text").items| != 0) then true
    else false
  }

  /** `hasDelta(delta) ? delta : null`. */
  function Normalize(delta: Value): Value
  {
    if HasDelta(delta) then delta else Null
  }

  /** The delta `trackPage` reports when there is a previous snapshot: null,
      or a `{headings, html, text}` object that has a delta. */
  function ComputeDelta(lib: DiffLib, previous: Value, current: Value): (delta: Value)
    ensures delta == Null || (HasDelta(delta) && delta.fields.Keys == {"headings", "html", "text"})
  {
    Normalize(RawDelta(lib, previous, current))
  }

  // ---------------------------------------------------------------------------
  // Lemmas

  /** `hasDelta` on a delta object, field by field: null never has a delta;
      a delta object has one exactly when its `headings` is truthy or its
      `html` or `text` is a non-empty diff. */
  lemma HasDeltaFields(headings: Value, html: Value, text: Value)
    ensures !HasDelta(Null)
    ensures HasDelta(DeltaObject(headings, html, text))
        <==> Truthy(headings) || NonEmptyDiff(html) || NonEmptyDiff(text)
  {
    var d := DeltaObject(headings, html, text);
    assert Field(d, "headings") == headings;
    assert Field(d, "html") == html;
    assert Field(d, "text") == text;
  }

  /** The asymmetry: an empty `headings` array is a delta, empty `html` and
      `text` arrays are not. */
  lemma EmptyArrayAsymmetry()
    ensures HasDelta(DeltaObject(Arr([]), Null, Null))
    ensures !HasDelta(DeltaObject(Null, Arr([]), Arr([])))
  {
    HasDeltaFields(Arr([]), Null, Null);
    HasDeltaFields(Null, Arr([]), Arr([]));
  }

  /** Normalisation keeps a delta exactly when `hasDelta` holds of it, and
      applying it twice changes nothing. */
  lemma NormalizeSound(delta: Value)
    ensures Normalize(delta) == Null <==> !HasDelta(delta)
    ensures Normalize(delta) != Null ==> Normalize(delta) == delta && HasDelta(Normalize(delta))
    ensures Normalize(Normalize(delta)) == Normalize(delta)
  {
    assert !Truthy(Null);
  }

  /** The delta is null exactly when no field says something, and otherwise it
      carries the raw per-field diffs. */
  lemma ComputeDeltaFields(lib: DiffLib, previous: Value, current: Value)
    ensures var h := lib.diff(Field(previous, "headings"), Field(current, "headings"));
            var m := TextDiff(lib, lib.diff(Field(previous, "html"), Field(current, "html")));
            var t := TextDiff(lib, lib.diff(Field(previous, "text"), Field(current, "text")));
            && (ComputeDelta(lib, previous, current) == Null
                <==> !Truthy(h) && !NonEmptyDiff(m) && !NonEmptyDiff(t))
            && (ComputeDelta(lib, previous, current) != Null
                ==> ComputeDelta(lib, previous, current) == DeltaObject(h, m, t))
  {
    var h := lib.diff(Field(previous, "headings"), Field(current, "headings"));
    var m := TextDiff(lib, lib.diff(Field(previous, "html"), Field(current, "html")));
    var t := TextDiff(lib, lib.diff(Field(previous, "text"), Field(current, "text")));
    HasDeltaFields(h, m, t);
    NormalizeSound(DeltaObject(h, m, t));
  }

  /** A diff that reports a change of headings with a truthy value yields a
      populated delta whose `headings` is that value. */
  lemma ChangedHeadingsReported(lib: DiffLib, previous: Value, current: Value)
    requires Truthy(lib.diff(Field(previous, "headings"), Field(current, "headings")))
    ensures ComputeDelta(lib, previous, current) != Null
    ensures Field(ComputeDelta(lib, previous, current), "headings")
         == lib.diff(Field(previous, "headings"), Field(current, "headings"))
  {
    ComputeDeltaFields(lib, previous, current);
  }

  /** Unchanged content gives no delta, provided the collaborator reports
      "no change" with a falsy value for the headings and with a falsy value or
      an empty array for the text-like fields. */
  lemma UnchangedContentNoDelta(lib: DiffLib, previous: Value, current: Value)
    requires !Truthy(lib.diff(Field(previous, "headings"), Field(current, "headings")))
    requires !NonEmptyDiff(TextDiff(lib, lib.diff(Field(previous, "html"), Field(current, "html"))))
    requires !NonEmptyDiff(TextDiff(lib, lib.diff(Field(previous, "text"), Field(current, "text"))))
    ensures ComputeDelta(lib, previous, current) == Null
  {
    ComputeDeltaFields(lib, previous, current);
  }

  /** The asymmetry's consequence: a collaborator that reports unchanged
      headings as an empty array makes every comparison a change. */
  lemma EmptyHeadingsDiffIsChange(lib: DiffLib, previous: Value, current: Value)
    requires lib.diff(Field(previous, "headings"), Field(current, "headings")) == Arr([])
    ensures ComputeDelta(lib, previous, current) != Null
  {
    ComputeDeltaFields(lib, previous, current);
  }
}
