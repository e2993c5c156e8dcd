/** The default item built from one input line (src/helper/item.rs): which text is matched,
    which is output, which field ranges restrict matching, and which character spans a
    display highlights. */
module ItemHelper {
  import opened Common

  /** A line after ANSI parsing: its text with escape codes removed, and whether any
      attributes (colours, styles) were found in it. */
  datatype AnsiString = AnsiString(stripped: string, hasAttrs: bool)

  /** `AnsiString::from(String)`: plain text, no attributes. */
  function Plain(s: string): AnsiString
  {
    AnsiString(s, false)
  }

  /** The collaborators this model does not contain, with the field delimiter folded in:
      `ANSIParser::parse_ansi`, `parse_transform_fields` and `parse_matching_fields`. */
  datatype Collab<!F> = Collab(
    parseAnsi: string -> AnsiString,
    transformFields: (string, seq<F>) -> string,
    matchingFields: (string, seq<F>) -> seq<(nat, nat)>)

  /** `DefaultSkimItem`: the original line when it had to be kept (the matched text was
      transformed), the matched and shown text, and the ranges matching is limited to. */
  datatype DefaultSkimItem = DefaultSkimItem(
    origText: Option<string>,
    text: AnsiString,
    matchingRanges: Option<seq<(nat, nat)>>)

  /** `DefaultSkimItem::new`. */
  function NewItem<F>(c: Collab<F>, orig: string, ansiEnabled: bool, transFields: seq<F>, matchingFields: seq<F>): DefaultSkimItem
  {
    var usingTransformFields := |transFields| > 0;
    var (origText, text) :=
      if usingTransformFields && ansiEnabled then
        (Some(orig), c.parseAnsi(c.transformFields(orig, transFields)))
      else if usingTransformFields then
        (Some(orig), Plain(c.transformFields(orig, transFields)))
      else
        (None, c.parseAnsi(orig));
    var matchingRanges :=
      if |matchingFields| > 0 then Some(c.matchingFields(text.stripped, matchingFields)) else None;
    DefaultSkimItem(origText, text, matchingRanges)
  }

  /** `SkimItem::text`: the text that is matched. */
  function Text(item: DefaultSkimItem): string
  {
    item.text.stripped
  }

  /** `SkimItem::output`: what is printed when the item is accepted. */
  function Output<F>(c: Collab<F>, item: DefaultSkimItem): string
  {
    match item.origText
    case Some(orig) => if item.text.hasAttrs then c.parseAnsi(orig).stripped else orig
    case None => item.text.stripped
  }

  /** `SkimItem::get_matching_ranges`. */
  function MatchingRanges(item: DefaultSkimItem): Option<seq<(nat, nat)>>
  {
    item.matchingRanges
  }

  /** The original line is kept exactly when transform fields are given; the matched text
      is the transformed line (ANSI-stripped only when ANSI is enabled), or else the ANSI-parsed
      line itself. Matching ranges exist exactly when matching fields are given, and are
      computed on the matched text. */
  lemma NewItemSpec<F>(c: Collab<F>, orig: string, ansiEnabled: bool, transFields: seq<F>, matchingFields: seq<F>)
    ensures var item := NewItem(c, orig, ansiEnabled, transFields, matchingFields);
      && (item.origText.Some? <==> |transFields| > 0)
      && (item.origText.Some? ==> item.origText.value == orig)
      && (|transFields| == 0 ==> Text(item) == c.parseAnsi(orig).stripped)
      && (|transFields| > 0 && ansiEnabled ==> Text(item) == c.parseAnsi(c.transformFields(orig, transFields)).stripped)
      && (|transFields| > 0 && !ansiEnabled ==> Text(item) == c.transformFields(orig, transFields) && !item.text.hasAttrs)
      && (MatchingRanges(item).Some? <==> |matchingFields| > 0)
      && (|matchingFields| > 0 ==> MatchingRanges(item).value == c.matchingFields(Text(item), matchingFields))
  {
  }

  /** What is output for a new item: the ANSI-stripped line when nothing was transformed (the
      same text that is matched); the line verbatim when it was transformed without ANSI; and
      with ANSI, the line verbatim unless the transformed text carries attributes, in which
      case the ANSI-stripped line. */
  lemma OutputOfNewItem<F>(c: Collab<F>, orig: string, ansiEnabled: bool, transFields: seq<F>, matchingFields: seq<F>)
    ensures var item := NewItem(c, orig, ansiEnabled, transFields, matchingFields);
      && (|transFields| == 0 ==> Output(c, item) == Text(item) == c.parseAnsi(orig).stripped)
      && (|transFields| > 0 && !ansiEnabled ==> Output(c, item) == orig)
      && (|transFields| > 0 && ansiEnabled ==>
            Output(c, item) ==
              if c.parseAnsi(c.transformFields(orig, transFields)).hasAttrs then c.parseAnsi(orig).stripped else orig)
  {
  }

  //------------------------------------------------------------------------------
  // Highlighting

  /** What a matcher reports for display: character indices, a character range, or a byte
      range of the text. */
  datatype Matches = CharIndices(indices: seq<nat>) | CharRange(start: nat, end: nat) | ByteRange(start: nat, end: nat)

  /** A highlight fragment: an attribute over the half-open span [start, end). */
  datatype Fragment<A> = Fragment(attr: A, start: nat, end: nat)

  /** The fragments `display` builds. A byte range is measured with `str::len` of the slices
      before and inside it, which counts bytes; slicing outside the text is a panic, which
      the precondition excludes. */
  function DisplayFragments<A>(highlight: A, matches: Option<Matches>, text: seq<Byte>): seq<Fragment<A>>
    requires matches.Some? && matches.value.ByteRange? ==> matches.value.start <= matches.value.end <= |text|
  {
    match matches
    case Some(CharIndices(indices)) =>
      seq(|indices|, k requires 0 <= k < |indices| => Fragment(highlight, indices[k], indices[k] + 1))
    case Some(CharRange(start, end)) => [Fragment(highlight, start, end)]
    case Some(ByteRange(start, end)) =>
      var chStart := |text[..start]|;
      var chEnd := chStart + |text[start..end]|;
      [Fragment(highlight, chStart, chEnd)]
    case None => []
  }

  /** Whether position `i` lies inside one of the fragments. */
  predicate Covered<A>(fragments: seq<Fragment<A>>, i: nat)
  {
    exists k :: 0 <= k < |fragments| && fragments[k].start <= i < fragments[k].end
  }

  /** Character indices give one single-position fragment each, in the same order, and
      highlight exactly the listed positions. */
  lemma CharIndicesFragments<A>(highlight: A, indices: seq<nat>, text: seq<Byte>)
    ensures var f := DisplayFragments(highlight, Some(CharIndices(indices)), text);
      && |f| == |indices|
      && (forall k :: 0 <= k < |f| ==> f[k].attr == highlight && f[k].start == indices[k] && f[k].end == f[k].start + 1)
      && (forall i: nat :: Covered(f, i) <==> i in indices)
  {
    var f := DisplayFragments(highlight, Some(CharIndices(indices)), text);
    forall i: nat
      ensures Covered(f, i) <==> i in indices
    {
      if i in indices {
        var k :| 0 <= k < |indices| && indices[k] == i;
        assert f[k].start <= i < f[k].end;
      }
    }
  }

  /** A character range and a byte range each give the single fragment [start, end); the byte
      range is passed on in bytes, not converted to characters. No matches give none. */
  lemma RangeFragments<A>(highlight: A, start: nat, end: nat, text: seq<Byte>)
    ensures DisplayFragments(highlight, Some(CharRange(start, end)), text) == [Fragment(highlight, start, end)]
    ensures DisplayFragments(highlight, None, text) == []
    ensures start <= end <= |text| ==>
      DisplayFragments(highlight, Some(Matches.ByteRange(start, end)), text) == [Fragment(highlight, start, end)]
    ensures start <= end <= |text| ==>
      forall i: nat :: Covered(DisplayFragments(highlight, Some(Matches.ByteRange(start, end)), text), i) <==> start <= i < end
  {
    if start <= end <= |text| {
      var f := DisplayFragments(highlight, Some(Matches.ByteRange(start, end)), text);
      forall i: nat
        ensures Covered(f, i) <==> start <= i < end
      {
        if start <= i < end {
          assert f[0] == Fragment(highlight, start, end);
        }
      }
    }
  }
}
