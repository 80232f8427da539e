/**
 * The muscle-tag codec of backend/app/fitness/service.py: a day's primary
 * muscles are stored as one text column holding the tags joined with ",",
 * blanks dropped and repeats removed in first-seen order; reading the column
 * splits it again.
 */
module MuscleTags {
  import opened Outcomes
  import opened Text
  import opened Grouping
  import opened MasterdataModels

  /**
   * What the normaliser accepts: either comma-separated text or a list of
   * tags (the request bodies send a list of `MuscleGroup`s, whose values are
   * the tags).
   */
  datatype MuscleSelection = CommaText(text: string) | TagList(tags: seq<string>)

  /** The tag text of each muscle group in a list (`str(muscle.value)`). */
  function TagValues(gs: seq<MuscleGroup>): (vs: seq<string>)
    ensures |vs| == |gs|
    ensures forall i :: 0 <= i < |gs| ==> vs[i] == MuscleGroupValue(gs[i])
  {
    seq(|gs|, i requires 0 <= i < |gs| => MuscleGroupValue(gs[i]))
  }

  /** A request body's optional muscle-group list as a selection. */
  function SelectionOf(gs: Option<seq<MuscleGroup>>): (sel: Option<MuscleSelection>)
    ensures gs.None? <==> sel.None?
    ensures gs.Some? ==> sel == Some(TagList(TagValues(gs.value)))
  {
    match gs
    case None => None
    case Some(list) => Some(TagList(TagValues(list)))
  }

  /** Python truthiness of the argument: `None`, "" and [] are falsy. */
  predicate Falsy(sel: Option<MuscleSelection>)
  {
    match sel
    case None => true
    case Some(CommaText(t)) => t == ""
    case Some(TagList(tags)) => tags == []
  }

  predicate Blank(s: string)
  {
    Strip(s) == ""
  }

  /** The list items that are not blank, kept as given (not stripped). */
  function NonBlank(items: seq<string>): (r: seq<string>)
    ensures |r| <= |items|
    ensures forall i :: 0 <= i < |r| ==> !Blank(r[i]) && r[i] in items
  {
    if items == [] then []
    else
      var init := NonBlank(items[..|items| - 1]);
      var last := items[|items| - 1];
      if Blank(last) then init else init + [last]
  }

  /** `[m.strip() for m in parts if m.strip()]`: the stripped, non-empty parts. */
  function NonBlankStripped(parts: seq<string>): (r: seq<string>)
    ensures |r| <= |parts|
    ensures forall i :: 0 <= i < |r| ==> r[i] != "" && Trimmed(r[i])
  {
    if parts == [] then []
    else
      var init := NonBlankStripped(parts[..|parts| - 1]);
      var last := Strip(parts[|parts| - 1]);
      if last == "" then init else init + [last]
  }

  /** The filter keeps every part that is not blank once stripped ... */
  lemma {:induction false} NonBlankStrippedKeepsParts(parts: seq<string>)
    ensures forall p :: p in parts && Strip(p) != "" ==> Strip(p) in NonBlankStripped(parts)
  {
    if parts != [] {
      var init, last := parts[..|parts| - 1], parts[|parts| - 1];
      NonBlankStrippedKeepsParts(init);
      var rest := NonBlankStripped(init);
      assert NonBlankStripped(parts) == if Strip(last) == "" then rest else rest + [Strip(last)];
      forall p | p in parts && Strip(p) != "" ensures Strip(p) in NonBlankStripped(parts) {
        if p != last {
          assert p in init;
        }
      }
    }
  }

  /** ... and nothing that is not such a part. */
  lemma {:induction false} NonBlankStrippedFromParts(parts: seq<string>)
    ensures forall t :: t in NonBlankStripped(parts) ==> exists p :: p in parts && Strip(p) == t
  {
    if parts != [] {
      var init, last := parts[..|parts| - 1], parts[|parts| - 1];
      NonBlankStrippedFromParts(init);
      var rest := NonBlankStripped(init);
      assert NonBlankStripped(parts) == if Strip(last) == "" then rest else rest + [Strip(last)];
      forall t | t in NonBlankStripped(parts) ensures exists p :: p in parts && Strip(p) == t {
        if t in rest {
          var p :| p in init && Strip(p) == t;
          assert p in parts;
        } else {
          assert last in parts && Strip(last) == t;
        }
      }
    }
  }

  /** The `raw` list the normaliser builds before removing repeats. */
  function RawTags(sel: MuscleSelection): seq<string>
  {
    match sel
    case CommaText(t) => NonBlankStripped(Split(t, ','))
    case TagList(tags) => NonBlank(tags)
  }

  /**
   * What `normalize_primary_muscle_selection` returns: nothing for a falsy
   * argument or one without a non-blank tag, otherwise the tags without
   * repeats, in first-seen order, joined with ",".
   */
  function NormalizedSelection(sel: Option<MuscleSelection>): (r: Option<string>)
    ensures Falsy(sel) ==> r == None
    ensures sel.Some? ==> (r.None? <==> RawTags(sel.value) == [])
    ensures r.Some? ==> r.value == Join(Distinct(RawTags(sel.value)), ',')
  {
    if Falsy(sel) then None
    else
      var raw := RawTags(sel.value);
      if raw == [] then None else Some(Join(Distinct(raw), ','))
  }

  /** The first loop of the normaliser: the non-blank list items, kept as given. */
  method CollectNonBlank(tags: seq<string>) returns (raw: seq<string>)
    ensures raw == NonBlank(tags)
  {
    raw := [];
    var k := 0;
    while k < |tags|
      invariant 0 <= k <= |tags|
      invariant raw == NonBlank(tags[..k])
    {
      assert tags[..k + 1][..k] == tags[..k];
      if Strip(tags[k]) != "" {
        raw := raw + [tags[k]];
      }
      k := k + 1;
    }
    assert tags[..k] == tags;
  }

  /** The second loop of the normaliser: repeats dropped through a `seen` set. */
  method DropRepeats(raw: seq<string>) returns (ordered: seq<string>)
    ensures ordered == Distinct(raw)
  {
    var seen: set<string> := {};
    ordered := [];
    var k := 0;
    while k < |raw|
      invariant 0 <= k <= |raw|
      invariant ordered == Distinct(raw[..k])
      invariant forall m :: m in seen <==> m in ordered
    {
      assert raw[..k + 1][..k] == raw[..k];
      if raw[k] !in seen {
        seen := seen + {raw[k]};
        ordered := ordered + [raw[k]];
      }
      k := k + 1;
    }
    assert raw[..k] == raw;
  }

  /** The normaliser itself, proved against `NormalizedSelection`. */
  method NormalizePrimaryMuscleSelection(muscles: Option<MuscleSelection>) returns (r: Option<string>)
    ensures r == NormalizedSelection(muscles)
  {
    if Falsy(muscles) {
      return None;
    }
    var raw: seq<string>;
    match muscles.value {
      case CommaText(t) =>
        raw := NonBlankStripped(Split(t, ','));
      case TagList(tags) =>
        raw := CollectNonBlank(tags);
    }
    if raw == [] {
      return None;
    }
    var ordered := DropRepeats(raw);
    return Some(Join(ordered, ','));
  }

  /**
   * `parse_primary_muscles`: no tags for a missing or empty value, otherwise
   * the stripped, non-empty pieces between commas.
   */
  function ParsePrimaryMuscles(value: Option<string>): (tags: seq<string>)
    ensures value.None? ==> tags == []
    ensures forall i :: 0 <= i < |tags| ==> tags[i] != "" && Trimmed(tags[i]) && ',' !in tags[i]
  {
    if value.None? || value.value == "" then []
    else
      var parts := Split(value.value, ',');
      NonBlankStrippedKeepsOut(parts, ',');
      NonBlankStripped(parts)
  }

  lemma {:induction false} NonBlankStrippedKeepsOut(parts: seq<string>, c: char)
    requires forall i :: 0 <= i < |parts| ==> c !in parts[i]
    ensures forall i :: 0 <= i < |NonBlankStripped(parts)| ==> c !in NonBlankStripped(parts)[i]
  {
    if parts != [] {
      NonBlankStrippedKeepsOut(parts[..|parts| - 1], c);
      assert c !in parts[|parts| - 1];
    }
  }

  /** Tags that are already stripped and non-empty pass the parser's filter unchanged. */
  lemma {:induction false} NonBlankStrippedOfClean(tags: seq<string>)
    requires forall i :: 0 <= i < |tags| ==> tags[i] != "" && Trimmed(tags[i])
    ensures NonBlankStripped(tags) == tags
  {
    if tags != [] {
      NonBlankStrippedOfClean(tags[..|tags| - 1]);
      assert tags[..|tags| - 1] + [tags[|tags| - 1]] == tags;
    }
  }

  lemma {:induction false} JoinNotEmpty(parts: seq<string>, sep: char)
    requires |parts| >= 1 && parts[0] != ""
    ensures Join(parts, sep) != ""
  {
    if |parts| > 1 {
      assert Join(parts, sep)[0] == parts[0][0];
    }
  }

  /** Parsing the join of stripped, non-empty, comma-free tags gives them back. */
  lemma ParseJoin(tags: seq<string>)
    requires forall i :: 0 <= i < |tags| ==> tags[i] != "" && Trimmed(tags[i]) && ',' !in tags[i]
    ensures ParsePrimaryMuscles(Some(Join(tags, ','))) == tags
  {
    if tags != [] {
      JoinNotEmpty(tags, ',');
      SplitJoin(tags, ',');
      NonBlankStrippedOfClean(tags);
    }
  }

  /** Dropping repeats keeps every property each element has. */
  lemma DistinctKeeps(xs: seq<string>)
    requires forall i :: 0 <= i < |xs| ==> xs[i] != "" && Trimmed(xs[i]) && ',' !in xs[i]
    ensures forall i :: 0 <= i < |Distinct(xs)| ==>
              Distinct(xs)[i] != "" && Trimmed(Distinct(xs)[i]) && ',' !in Distinct(xs)[i]
  {
    forall i | 0 <= i < |Distinct(xs)|
      ensures Distinct(xs)[i] != "" && Trimmed(Distinct(xs)[i]) && ',' !in Distinct(xs)[i]
    {
      var j :| 0 <= j < |xs| && xs[j] == Distinct(xs)[i];
    }
  }

  /** A non-blank tag with no surrounding white space is not empty. */
  lemma NonBlankOfTrimmed(items: seq<string>)
    requires forall i :: 0 <= i < |items| ==> Trimmed(items[i]) && ',' !in items[i]
    ensures forall i :: 0 <= i < |NonBlank(items)| ==>
              NonBlank(items)[i] != "" && Trimmed(NonBlank(items)[i]) && ',' !in NonBlank(items)[i]
  {
    forall i | 0 <= i < |NonBlank(items)|
      ensures NonBlank(items)[i] != "" && Trimmed(NonBlank(items)[i]) && ',' !in NonBlank(items)[i]
    {
      var r := NonBlank(items)[i];
      var j :| 0 <= j < |items| && items[j] == r;
      assert Strip(r) == r;
    }
  }

  /**
   * Round trip for a tag list: when no tag holds a comma or surrounding white
   * space, parsing the stored text gives the non-blank tags without repeats,
   * in first-seen order.
   */
  lemma TagListRoundTrip(tags: seq<string>)
    requires forall i :: 0 <= i < |tags| ==> Trimmed(tags[i]) && ',' !in tags[i]
    ensures ParsePrimaryMuscles(NormalizedSelection(Some(TagList(tags)))) == Distinct(NonBlank(tags))
  {
    var raw := NonBlank(tags);
    if raw != [] {
      NonBlankOfTrimmed(tags);
      DistinctKeeps(raw);
      ParseJoin(Distinct(raw));
    }
  }

  /** The muscle groups a request selects come back from the stored text, without repeats. */
  lemma MuscleGroupsRoundTrip(gs: seq<MuscleGroup>)
    ensures ParsePrimaryMuscles(NormalizedSelection(SelectionOf(Some(gs)))) == Distinct(TagValues(gs))
  {
    var vs := TagValues(gs);
    forall i | 0 <= i < |vs| ensures Trimmed(vs[i]) && ',' !in vs[i] {
      CleanValue(gs[i]);
    }
    forall x | x in vs ensures !Blank(x) {
      var i :| 0 <= i < |vs| && vs[i] == x;
      CleanValue(gs[i]);
    }
    NonBlankAll(vs);
    TagListRoundTrip(vs);
  }

  /** A muscle group's value is a clean tag: no surrounding white space, no comma, not blank. */
  lemma CleanValue(g: MuscleGroup)
    ensures var v := MuscleGroupValue(g); Trimmed(v) && ',' !in v && !Blank(v)
  {
    var v := MuscleGroupValue(g);
    assert v == [v[0]];
  }

  lemma {:induction false} NonBlankAll(items: seq<string>)
    requires forall x :: x in items ==> !Blank(x)
    ensures NonBlank(items) == items
  {
    if items != [] {
      var init, last := items[..|items| - 1], items[|items| - 1];
      assert items == init + [last];
      NonBlankAll(init);
    }
  }

  /**
   * Round trip for text: normalising comma-separated text and parsing the
   * result gives the text's tags with repeats removed.
   */
  lemma CommaTextRoundTrip(text: string)
    ensures ParsePrimaryMuscles(NormalizedSelection(Some(CommaText(text))))
         == Distinct(ParsePrimaryMuscles(Some(text)))
  {
    if text != "" {
      var raw := RawTags(CommaText(text));
      assert raw == ParsePrimaryMuscles(Some(text));
      if raw != [] {
        DistinctKeeps(raw);
        ParseJoin(Distinct(raw));
      }
    }
  }

  /** Normalising stored tag text again changes nothing. */
  lemma NormalizeTextIdempotent(text: string, stored: string)
    requires NormalizedSelection(Some(CommaText(text))) == Some(stored)
    ensures NormalizedSelection(Some(CommaText(stored))) == Some(stored)
  {
    var raw := RawTags(CommaText(text));
    assert raw == ParsePrimaryMuscles(Some(text));
    var d := Distinct(raw);
    DistinctKeeps(raw);
    ParseJoin(d);
    assert RawTags(CommaText(stored)) == d;
    DistinctOfDistinct(d);
  }
}
