/**
 * The editing logic of the project form (`components/doc-form.tsx`): the
 * comma-separated tags box, the reference list of a page and the image
 * markdown appended to a note after an upload.
 */
module DocForm {
  import opened Wrappers
  import opened Text
  import opened DocTypes
  import opened Lists

  // Tags.

  /** The message shown when a non-empty tag text has no comma. */
  const TagsRejected: string := "Los tags deben estar separados por comas"

  /** The separator accepted tags are shown with. */
  const TagSeparator: string := ", "

  /** A tag as the box accepts it: non-empty, no comma, no whitespace at either end. */
  predicate IsTag(t: string) {
    t != [] && ',' !in t && !IsSpace(t[0]) && !IsSpace(t[|t| - 1])
  }

  /** The blur check fails: the trimmed text is non-empty and holds no comma. */
  predicate Rejected(text: string) {
    var value := Trim(text);
    value != [] && ',' !in value
  }

  /** Each piece trimmed, in order. */
  function TrimEach(pieces: seq<string>): (trimmed: seq<string>)
    ensures |trimmed| == |pieces| && forall i :: 0 <= i < |pieces| ==> trimmed[i] == Trim(pieces[i])
  {
    if pieces == [] then [] else [Trim(pieces[0])] + TrimEach(pieces[1..])
  }

  /**
   * `map(s => s.trim()).filter(Boolean)`: the trimmed pieces, in order, with
   * the empty ones dropped and every other one kept as often as it occurs.
   */
  function CleanTags(pieces: seq<string>): (tags: seq<string>)
    ensures |tags| <= |pieces|
    ensures forall t :: t in tags ==> t != [] && !IsSpace(t[0]) && !IsSpace(t[|t| - 1])
  {
    if pieces == [] then []
    else
      var t := Trim(pieces[0]);
      var rest := CleanTags(pieces[1..]);
      if t == [] then rest else [t] + rest
  }

  /**
   * The cleaned tags are the trimmed pieces in order, with the empty ones
   * dropped and every other one kept as often as it occurs.
   */
  lemma {:induction false} CleanTagsSelects(pieces: seq<string>)
    ensures Subsequence(CleanTags(pieces), TrimEach(pieces))
    ensures forall t :: multiset(CleanTags(pieces))[t] == if t == [] then 0 else multiset(TrimEach(pieces))[t]
  {
    if pieces != [] {
      CleanTagsSelects(pieces[1..]);
      assert TrimEach(pieces) == [Trim(pieces[0])] + TrimEach(pieces[1..]);
      if Trim(pieces[0]) != [] {
        var tags := CleanTags(pieces);
        assert tags[0] == TrimEach(pieces)[0] && tags[1..] == CleanTags(pieces[1..]);
      }
    }
  }

  /** Every character of a cleaned tag comes from one of the pieces. */
  lemma {:induction false} CleanTagsChars(pieces: seq<string>)
    ensures forall t, c :: t in CleanTags(pieces) && c in t ==> exists p :: p in pieces && c in p
  {
    if pieces != [] {
      CleanTagsChars(pieces[1..]);
      assert forall p :: p in pieces[1..] ==> p in pieces;
    }
  }

  /** The tags parsed from the trimmed text: split on `,`, trimmed, empty ones dropped. */
  function ParseTags(value: string): (tags: seq<string>)
    ensures forall t :: t in tags ==> IsTag(t)
  {
    var pieces := Split(value, ',');
    var tags := CleanTags(pieces);
    CleanTagsChars(pieces);
    assert forall t, c :: t in tags && c in t ==> c != ',' by {
      forall t, c | t in tags && c in t ensures c != ',' {
        var p :| p in pieces && c in p;
        var i :| 0 <= i < |pieces| && pieces[i] == p;
      }
    }
    tags
  }

  /**
   * The parsed tags are the comma-separated pieces of the text, trimmed, in
   * order, with the empty ones dropped and every other one kept as often as
   * it occurs.
   */
  lemma ParseTagsSelects(value: string)
    ensures var pieces := TrimEach(Split(value, ','));
      Subsequence(ParseTags(value), pieces) &&
      forall t :: multiset(ParseTags(value))[t] == if t == [] then 0 else multiset(pieces)[t]
  {
    CleanTagsSelects(Split(value, ','));
  }

  /**
   * The tags box: the text typed, the error shown under it, and the form's
   * `metadata.tags` field it feeds.
   */
  class TagsEditor {
    var tagsInput: string
    var tagsError: string
    var tags: Option<seq<string>>

    /** The box starts with the initial tags joined by `", "`, and no error. */
    constructor (initialTags: Option<seq<string>>)
      ensures tagsInput == (if initialTags.Some? then Join(initialTags.value, TagSeparator) else "")
      ensures tagsError == "" && tags == initialTags
    {
      tagsInput := if initialTags.Some? then Join(initialTags.value, TagSeparator) else "";
      tagsError := "";
      tags := initialTags;
    }

    /** Typing replaces the text and clears the error; the field is untouched. */
    method OnChange(text: string)
      modifies this
      ensures tagsInput == text && tagsError == "" && tags == old(tags)
    {
      tagsInput := text;
      tagsError := "";
    }

    /**
     * Leaving the box: a rejected text sets the error and changes nothing
     * else; otherwise the field takes the parsed tags, the box shows them
     * joined by `", "` and the error is cleared.
     */
    method OnBlur()
      modifies this
      ensures Rejected(old(tagsInput)) ==>
        tagsError == TagsRejected && tagsInput == old(tagsInput) && tags == old(tags)
      ensures !Rejected(old(tagsInput)) ==>
        var parsed := ParseTags(Trim(old(tagsInput)));
        tags == Some(parsed) && tagsInput == Join(parsed, TagSeparator) && tagsError == ""
    {
      var text := tagsInput;
      if Rejected(text) {
        tagsError := TagsRejected;
        return;
      }
      var parsed := ParseTags(Trim(text));
      tags, tagsInput, tagsError := Some(parsed), Join(parsed, TagSeparator), "";
    }
  }

  /** Blank text is accepted and yields no tags. */
  lemma BlankTagsParseEmpty(text: string)
    requires forall k :: 0 <= k < |text| ==> IsSpace(text[k])
    ensures !Rejected(text) && ParseTags(Trim(text)) == []
  {
    TrimBlank(text);
    assert Split([], ',') == [[]];
  }

  /** Joining tags gives a string that starts with the first tag's first character and ends with the last tag's last. */
  lemma {:induction false} JoinEnds(tags: seq<string>, sep: string)
    requires tags != [] && forall i :: 0 <= i < |tags| ==> tags[i] != []
    ensures var j, last := Join(tags, sep), tags[|tags| - 1];
      j != [] && j[0] == tags[0][0] && j[|j| - 1] == last[|last| - 1]
  {
    if |tags| > 1 {
      JoinEnds(tags[1..], sep);
    }
  }

  /**
   * Splitting the `", "`-joined tags on `,` and cleaning the pieces gives the
   * tags back, whether or not a blank precedes the text.
   */
  lemma {:induction false} JoinedTagsParse(tags: seq<string>, lead: string)
    requires lead == "" || lead == " "
    requires tags != [] && forall i :: 0 <= i < |tags| ==> IsTag(tags[i])
    ensures CleanTags(Split(lead + Join(tags, TagSeparator), ',')) == tags
  {
    var whole := lead + Join(tags, TagSeparator);
    if |tags| == 1 {
      assert whole == lead + tags[0];
      SingleTagParse(tags[0], lead);
      assert [tags[0]] == tags;
    } else {
      JoinedTagsParse(tags[1..], " ");
      JoinedTagsStep(tags, lead);
    }
  }

  /** A single tag, with or without a blank before it, splits and cleans to itself. */
  lemma SingleTagParse(t: string, lead: string)
    requires lead == "" || lead == " "
    requires IsTag(t)
    ensures CleanTags(Split(lead + t, ',')) == [t]
  {
    var x := lead + t;
    assert Split(x, ',') == [x] by {
      LeadTag(lead, t);
      SplitNoSep(x, ',');
    }
    assert CleanTags([x]) == [t] by {
      LeadTag(lead, t);
      CleanCons(x, []);
      assert [x] + [] == [x];
    }
  }

  /** One step of the round trip: the first tag splits off, and the rest, after a blank, parses back by itself. */
  lemma JoinedTagsStep(tags: seq<string>, lead: string)
    requires lead == "" || lead == " "
    requires |tags| > 1 && IsTag(tags[0])
    requires CleanTags(Split(" " + Join(tags[1..], TagSeparator), ',')) == tags[1..]
    ensures CleanTags(Split(lead + Join(tags, TagSeparator), ',')) == tags
  {
    var t := tags[0];
    var rest := Split(" " + Join(tags[1..], TagSeparator), ',');
    SplitFirstTag(tags, lead);
    assert CleanTags([lead + t] + rest) == [t] + tags[1..] by {
      LeadTag(lead, t);
      CleanCons(lead + t, rest);
    }
    assert [t] + tags[1..] == tags;
  }

  /** The joined tags split into the first tag, with its lead, and the pieces of the rest after a blank. */
  lemma SplitFirstTag(tags: seq<string>, lead: string)
    requires lead == "" || lead == " "
    requires |tags| > 1 && IsTag(tags[0])
    ensures Split(lead + Join(tags, TagSeparator), ',') ==
      [lead + tags[0]] + Split(" " + Join(tags[1..], TagSeparator), ',')
  {
    var jr := Join(tags[1..], TagSeparator);
    LeadTag(lead, tags[0]);
    JoinTagsCons(lead, tags);
    SplitPieceThenSep(lead + tags[0], ',', " " + jr);
  }

  /** The joined tags are the first tag, a comma, then a blank and the joined rest. */
  lemma JoinTagsCons(lead: string, tags: seq<string>)
    requires |tags| > 1
    ensures lead + Join(tags, TagSeparator) == (lead + tags[0]) + [','] + (" " + Join(tags[1..], TagSeparator))
  {
    var jr := Join(tags[1..], TagSeparator);
    assert Join(tags, TagSeparator) == tags[0] + TagSeparator + jr;
    assert TagSeparator == [','] + " ";
  }

  /** A tag, with or without one blank before it, holds no comma and trims to the tag. */
  lemma LeadTag(lead: string, t: string)
    requires lead == "" || lead == " "
    requires IsTag(t)
    ensures ',' !in lead + t && Trim(lead + t) == t
  {
    if lead == [] {
      assert lead + t == t;
    } else {
      SpacedTag(t);
    }
  }

  /** A tag after one blank holds no comma and trims to the tag. */
  lemma SpacedTag(t: string)
    requires IsTag(t)
    ensures ',' !in [' '] + t && Trim([' '] + t) == t
  {
    TrimLeadingSpace(t);
  }

  /** Cleaning a list of pieces cleans its first piece, then the rest. */
  lemma CleanCons(x: string, rest: seq<string>)
    ensures CleanTags([x] + rest) == (if Trim(x) == [] then [] else [Trim(x)]) + CleanTags(rest)
  {
    assert ([x] + rest)[0] == x && ([x] + rest)[1..] == rest;
  }

  /**
   * Accepted tags shown with `", "` are accepted again on the next blur and
   * parse back to themselves, unless there is exactly one tag.
   */
  lemma RenderedTagsStable(tags: seq<string>)
    requires |tags| != 1 && forall i :: 0 <= i < |tags| ==> IsTag(tags[i])
    ensures !Rejected(Join(tags, TagSeparator))
    ensures ParseTags(Trim(Join(tags, TagSeparator))) == tags
  {
    var j := Join(tags, TagSeparator);
    if tags == [] {
      assert Split([], ',') == [[]];
    } else {
      JoinEnds(tags, TagSeparator);
      assert j[|tags[0]|] == ',';
      JoinedTagsParse(tags, "");
      assert "" + j == j;
    }
  }

  /** A single accepted tag is shown without a comma, so the next blur rejects it. */
  lemma SingleTagRejected(t: string)
    requires IsTag(t)
    ensures Rejected(Join([t], TagSeparator))
  {
  }

  // References.

  /** The references field seen as a list: an absent list is empty. */
  function RefList(value: Option<seq<Reference>>): seq<Reference> {
    value.GetOr([])
  }

  /** Editing the url of reference `refIdx`: only that field of that entry changes. */
  function SetReferenceUrl(value: Option<seq<Reference>>, refIdx: nat, url: string): (r: seq<Reference>)
    requires refIdx < |RefList(value)|
    ensures |r| == |RefList(value)|
    ensures r[refIdx].url == url && r[refIdx].placeholder == RefList(value)[refIdx].placeholder
    ensures forall j :: 0 <= j < |r| && j != refIdx ==> r[j] == RefList(value)[j]
  {
    var refs := RefList(value);
    refs[refIdx := refs[refIdx].(url := url)]
  }

  /** Editing the placeholder of reference `refIdx`: only that field of that entry changes. */
  function SetReferencePlaceholder(value: Option<seq<Reference>>, refIdx: nat, placeholder: string): (r: seq<Reference>)
    requires refIdx < |RefList(value)|
    ensures |r| == |RefList(value)|
    ensures r[refIdx].placeholder == placeholder && r[refIdx].url == RefList(value)[refIdx].url
    ensures forall j :: 0 <= j < |r| && j != refIdx ==> r[j] == RefList(value)[j]
  {
    var refs := RefList(value);
    refs[refIdx := refs[refIdx].(placeholder := placeholder)]
  }

  /** Editing the url and the placeholder of an entry, in either order, gives the same list. */
  lemma ReferenceEditsCommute(value: seq<Reference>, refIdx: nat, url: string, placeholder: string)
    requires refIdx < |value|
    ensures SetReferenceUrl(Some(SetReferencePlaceholder(Some(value), refIdx, placeholder)), refIdx, url) ==
      SetReferencePlaceholder(Some(SetReferenceUrl(Some(value), refIdx, url)), refIdx, placeholder)
  {
  }

  /**
   * Removing reference `refIdx` keeps every other entry in order; an absent
   * list stays absent and an index past the end removes nothing.
   */
  function RemoveReference(value: Option<seq<Reference>>, refIdx: nat): (r: Option<seq<Reference>>)
    ensures value.None? <==> r.None?
    ensures value.Some? && refIdx >= |value.value| ==> r == value
    ensures value.Some? && refIdx < |value.value| ==>
      |r.value| == |value.value| - 1 &&
      (forall j :: 0 <= j < refIdx ==> r.value[j] == value.value[j]) &&
      (forall j :: refIdx <= j < |r.value| ==> r.value[j] == value.value[j + 1])
  {
    match value
    case None => None
    case Some(refs) => Some(if refIdx < |refs| then refs[..refIdx] + refs[refIdx + 1..] else refs)
  }

  /** "Add Reference": a blank reference at the end; an absent list counts as empty. */
  function AddReference(value: Option<seq<Reference>>): (r: seq<Reference>)
    ensures |r| == |RefList(value)| + 1 && r[..|RefList(value)|] == RefList(value)
    ensures r[|r| - 1] == Reference("", "")
  {
    RefList(value) + [Reference("", "")]
  }

  /** Removing the reference just added gives back the list as it was. */
  lemma AddThenRemove(value: Option<seq<Reference>>)
    ensures RemoveReference(Some(AddReference(value)), |RefList(value)|) == Some(RefList(value))
  {
    var refs := RefList(value);
    var added := refs + [Reference("", "")];
    assert AddReference(value) == added;
    var n := |refs|;
    assert added[..n] == refs;
    assert added[n + 1..] == [];
    assert RemoveReference(Some(added), n) == Some(added[..n] + added[n + 1..]);
    assert refs + [] == refs;
  }

  /** Removing an entry loses exactly that entry: the multiset of entries shrinks by it. */
  lemma RemoveLosesOne(refs: seq<Reference>, refIdx: nat)
    requires refIdx < |refs|
    ensures multiset(RemoveReference(Some(refs), refIdx).value) + multiset{refs[refIdx]} == multiset(refs)
  {
    assert refs == refs[..refIdx] + [refs[refIdx]] + refs[refIdx + 1..];
  }

  // Images.

  /** The markdown line that shows an uploaded image. */
  function ImageMarkdown(name: string, url: string): string {
    "\n![" + name + "](" + url + ")\n"
  }

  /**
   * The note text after an image upload: with a file and a non-empty url in
   * the response, the image markdown is appended to the current text (absent
   * text counts as empty); without a file, or when the upload fails, the text
   * is left as it is.
   */
  function ContentAfterUpload(currentValue: Option<string>, fileName: Option<string>, uploadedUrl: Option<string>)
    : (r: Option<string>)
    ensures fileName.None? || uploadedUrl.None? || uploadedUrl == Some("") ==> r == currentValue
    ensures fileName.Some? && uploadedUrl.Some? && uploadedUrl.value != "" ==>
      r.Some? && currentValue.GetOr("") <= r.value &&
      r.value[|currentValue.GetOr("")|..] == ImageMarkdown(fileName.value, uploadedUrl.value)
  {
    if fileName.None? then currentValue
    else if uploadedUrl.Some? && uploadedUrl.value != "" then
      Some(currentValue.GetOr("") + ImageMarkdown(fileName.value, uploadedUrl.value))
    else currentValue
  }

  /** Two successful uploads append their images in upload order. */
  lemma UploadsAppendInOrder(current: string, name1: string, url1: string, name2: string, url2: string)
    requires url1 != "" && url2 != ""
    ensures ContentAfterUpload(ContentAfterUpload(Some(current), Some(name1), Some(url1)), Some(name2), Some(url2)) ==
      Some(current + ImageMarkdown(name1, url1) + ImageMarkdown(name2, url2))
  {
  }
}
