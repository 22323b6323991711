/**
 * The question form (app/ask/page.tsx): the tag field is split on commas,
 * every piece trimmed and blank pieces dropped; the submit button is
 * disabled while a submission runs or while the title or the description
 * is blank.
 */
module AskPage {
  import opened JsString

  /** `pieces.map((tag) => tag.trim())`. */
  function TrimEach(pieces: seq<string>): (r: seq<string>)
    ensures |r| == |pieces|
    ensures forall k :: 0 <= k < |r| ==> r[k] == Trim(pieces[k])
  {
    seq(|pieces|, k requires 0 <= k < |pieces| => Trim(pieces[k]))
  }

  /** `pieces.filter((tag) => tag.length > 0)`. */
  function NonEmpty(pieces: seq<string>): (r: seq<string>)
    ensures |r| <= |pieces|
    ensures forall k :: 0 <= k < |r| ==> r[k] != []
    ensures forall t :: t in r <==> t in pieces && t != []
  {
    if pieces == [] then []
    else (if pieces[0] == [] then [] else [pieces[0]]) + NonEmpty(pieces[1..])
  }

  /**
   * The `tagsArray` computed from the tag field: the trimmed comma-separated
   * pieces that are not blank, no more of them than there are pieces.
   */
  function ParseTags(field: string): (tags: seq<string>)
    ensures |tags| <= |Split(field, ',')|
    ensures forall t :: t in tags <==> t != [] && exists k :: 0 <= k < |Split(field, ',')| && t == Trim(Split(field, ',')[k])
  {
    var trimmed := TrimEach(Split(field, ','));
    assert forall t :: t in trimmed <==> exists k :: 0 <= k < |Split(field, ',')| && t == Trim(Split(field, ',')[k]) by {
      forall t | t in trimmed
        ensures exists k :: 0 <= k < |Split(field, ',')| && t == Trim(Split(field, ',')[k])
      {
        var k :| 0 <= k < |trimmed| && trimmed[k] == t;
      }
    }
    NonEmpty(trimmed)
  }

  /** What a parsed tag can be: non-empty, trimmed, without a comma. */
  predicate WellFormedTag(t: string) {
    t != [] && Trimmed(t) && ',' !in t
  }

  /**
   * Every parsed tag is well formed, and there are at most one more tags
   * than commas.
   */
  lemma ParseTagsWellFormed(field: string)
    ensures forall k :: 0 <= k < |ParseTags(field)| ==> WellFormedTag(ParseTags(field)[k])
    ensures |ParseTags(field)| <= Count(field, ',') + 1
  {
    var pieces := Split(field, ',');
    var trimmed := TrimEach(pieces);
    forall k | 0 <= k < |ParseTags(field)| ensures WellFormedTag(ParseTags(field)[k]) {
      var t := ParseTags(field)[k];
      assert t in trimmed;
      var j :| 0 <= j < |trimmed| && trimmed[j] == t;
      if ',' in t { TrimChars(pieces[j], ','); }
    }
  }

  lemma TrimEachAppend(a: seq<string>, b: seq<string>)
    ensures TrimEach(a + b) == TrimEach(a) + TrimEach(b)
  {
  }

  lemma {:induction false} NonEmptyAppend(a: seq<string>, b: seq<string>)
    ensures NonEmpty(a + b) == NonEmpty(a) + NonEmpty(b)
  {
    if a != [] {
      assert (a + b)[1..] == a[1..] + b;
      NonEmptyAppend(a[1..], b);
    } else {
      assert a + b == b;
    }
  }

  /**
   * Tags keep the left-to-right order of the field: the tags of two
   * fields joined by a comma are the tags of the first then the second.
   */
  lemma ParseTagsAppend(a: string, b: string)
    ensures ParseTags(a + [','] + b) == ParseTags(a) + ParseTags(b)
  {
    SplitAppend(a, b, ',');
    TrimEachAppend(Split(a, ','), Split(b, ','));
    NonEmptyAppend(TrimEach(Split(a, ',')), TrimEach(Split(b, ',')));
  }

  lemma {:induction false} NonEmptyOfNonEmpty(pieces: seq<string>)
    requires forall k :: 0 <= k < |pieces| ==> pieces[k] != []
    ensures NonEmpty(pieces) == pieces
  {
    if pieces != [] {
      NonEmptyOfNonEmpty(pieces[1..]);
    }
  }

  /**
   * Well-formed tags written out comma-separated parse back to the same
   * list, in order and of any length: nothing caps the number of tags.
   */
  lemma ParseTagsJoin(tags: seq<string>)
    requires forall k :: 0 <= k < |tags| ==> WellFormedTag(tags[k])
    ensures ParseTags(Join(tags, ',')) == tags
  {
    if tags == [] {
      assert Split([], ',') == [[]];
      assert ParseTags(Join(tags, ',')) == NonEmpty([[]]);
    } else {
      SplitJoin(tags, ',');
      forall k | 0 <= k < |tags| ensures Trim(tags[k]) == tags[k] {
        TrimOfTrimmed(tags[k]);
      }
      assert TrimEach(tags) == tags;
      NonEmptyOfNonEmpty(tags);
    }
  }

  /** `isSubmitting || !title.trim() || !description.trim()`. */
  predicate SubmitDisabled(isSubmitting: bool, title: string, description: string) {
    isSubmitting || Trim(title) == [] || Trim(description) == []
  }

  /** Submit is disabled exactly while submitting or with a blank title or description. */
  lemma SubmitDisabledIff(isSubmitting: bool, title: string, description: string)
    ensures SubmitDisabled(isSubmitting, title, description)
      <==> isSubmitting || AllWhitespace(title) || AllWhitespace(description)
  {
    TrimEmpty(title);
    TrimEmpty(description);
  }
}
