/**
 * The markdown editor (components/rich-text-editor.tsx): toolbar buttons
 * wrap the textarea's selection in a pair of markers, the emoji picker
 * inserts at the caret, and the image panel inserts an image link built
 * from a non-blank URL. Text and offsets are sequences of characters; the
 * textarea's selection always lies within the text.
 */
module RichTextEditor {
  import opened JsString

  // ---------------------------------------------------------------------
  // The splice
  // ---------------------------------------------------------------------

  /**
   * `value.substring(0, start) + before + selected + after +
   * value.substring(end)`: the selection wrapped in the two markers. The
   * text around the selection is kept, and so is the selection itself,
   * now between the markers.
   */
  function Splice(value: string, start: nat, end: nat, before: string, after: string): (r: string)
    requires start <= end <= |value|
    ensures |r| == |value| + |before| + |after|
    ensures r[..start] == value[..start]
    ensures r[start..start + |before|] == before
    ensures r[start + |before|..start + |before| + (end - start)] == value[start..end]
    ensures r[start + |before| + (end - start)..end + |before| + |after|] == after
    ensures r[end + |before| + |after|..] == value[end..]
  {
    value[..start] + before + value[start..end] + after + value[end..]
  }

  /** Cuts the two markers back out of a spliced text. */
  function Unsplice(r: string, start: nat, before: nat, selected: nat, after: nat): (v: string)
    requires start + before + selected + after <= |r|
    ensures |v| == |r| - before - after
  {
    r[..start] + r[start + before..start + before + selected] + r[start + before + selected + after..]
  }

  /** Removing the markers undoes the splice. */
  lemma UnspliceSplice(value: string, start: nat, end: nat, before: string, after: string)
    requires start <= end <= |value|
    ensures Unsplice(Splice(value, start, end, before, after), start, |before|, end - start, |after|) == value
  {
    var r := Splice(value, start, end, before, after);
    assert r[start + |before| + (end - start) + |after|..] == value[end..];
    assert value == value[..start] + value[start..end] + value[end..];
  }

  /** With empty markers the splice changes nothing. */
  lemma SpliceNothing(value: string, start: nat, end: nat)
    requires start <= end <= |value|
    ensures Splice(value, start, end, [], []) == value
  {
    assert value == value[..start] + value[start..end] + value[end..];
  }

  // ---------------------------------------------------------------------
  // Toolbar, emoji and image constants
  // ---------------------------------------------------------------------

  datatype ToolbarButton =
    Bold | Italic | Strikethrough | NumberedList | BulletList | AlignLeft | AlignCenter | AlignRight

  /** The `before` marker each button passes to `insertText`. */
  function Before(b: ToolbarButton): string {
    match b
    case Bold => "**"
    case Italic => "*"
    case Strikethrough => "~~"
    case NumberedList => "\n1. "
    case BulletList => "\n- "
    case AlignLeft => "<div style=\"text-align: left;\">"
    case AlignCenter => "<div style=\"text-align: center;\">"
    case AlignRight => "<div style=\"text-align: right;\">"
  }

  /** The `after` marker (the default `""` for the list buttons). */
  function After(b: ToolbarButton): string {
    match b
    case Bold => "**"
    case Italic => "*"
    case Strikethrough => "~~"
    case NumberedList => ""
    case BulletList => ""
    case AlignLeft => "</div>"
    case AlignCenter => "</div>"
    case AlignRight => "</div>"
  }

  predicate IsListButton(b: ToolbarButton) { b == NumberedList || b == BulletList }

  /**
   * The list buttons insert a prefix only; the inline styles use the same
   * marker on both sides; the alignment buttons close the `div` they open.
   */
  lemma ToolbarMarkers(b: ToolbarButton)
    ensures IsListButton(b) <==> After(b) == []
    ensures b in {Bold, Italic, Strikethrough} ==> Before(b) == After(b)
    ensures b in {AlignLeft, AlignCenter, AlignRight} ==>
      Before(b)[..5] == "<div " && Before(b)[|Before(b)| - 1] == '>' && After(b) == "</div>"
    ensures IsListButton(b) ==> Before(b)[0] == '\n'
  {
  }

  /** The twenty emoji of the picker, in grid order. */
  const Emojis: seq<string> := [
    "\U{1F600}", "\U{1F602}", "\U{1F60D}", "\U{1F914}", "\U{1F44D}",
    "\U{1F44E}", "\U{2764}\U{FE0F}", "\U{1F525}", "\U{1F4AF}", "\U{1F389}",
    "\U{1F680}", "\U{2B50}", "\U{2705}", "\U{274C}", "\U{26A0}\U{FE0F}",
    "\U{1F4A1}", "\U{1F3AF}", "\U{1F4DD}", "\U{1F527}", "\U{1F3A8}"]

  /** The picker shows twenty distinct, non-empty emoji (they are its keys). */
  lemma EmojisDistinct()
    ensures |Emojis| == 20
    ensures forall i :: 0 <= i < |Emojis| ==> Emojis[i] != []
    ensures forall i, j :: 0 <= i < j < |Emojis| ==> Emojis[i] != Emojis[j]
  {
    forall i, j | 0 <= i < j < |Emojis| ensures Emojis[i] != Emojis[j] {
      assert Emojis[i][0] != Emojis[j][0];
    }
  }

  /** `![Image](${imageUrl})`. */
  function ImageMarkdown(url: string): (md: string)
    ensures |md| == |url| + 10
  {
    "![Image](" + url + ")"
  }

  /** The URL can be read back out of the image link. */
  lemma ImageMarkdownUrl(url: string)
    ensures ImageMarkdown(url)[9..|ImageMarkdown(url)| - 1] == url
    ensures ImageMarkdown(url)[..9] == "![Image](" && ImageMarkdown(url)[|url| + 9] == ')'
  {
  }

  // ---------------------------------------------------------------------
  // Editor state
  // ---------------------------------------------------------------------

  /**
   * The controlled textarea and the component's state. `value` is the text
   * the parent holds and `onChange` replaces; `mounted` says whether the
   * textarea ref is set; the selection is the textarea's, with the range
   * the deferred `setSelectionRange` leaves.
   */
  class Editor {
    var value: string
    var mounted: bool
    var selectionStart: nat
    var selectionEnd: nat
    var showEmojiPicker: bool
    var showImageUpload: bool
    var imageUrl: string

    ghost predicate Valid()
      reads this
    {
      selectionStart <= selectionEnd <= |value|
    }

    constructor (initial: string)
      ensures Valid() && value == initial && !mounted
      ensures selectionStart == selectionEnd == 0
      ensures !showEmojiPicker && !showImageUpload && imageUrl == []
    {
      value := initial;
      mounted := false;
      selectionStart, selectionEnd := 0, 0;
      showEmojiPicker, showImageUpload := false, false;
      imageUrl := [];
    }

    /** The textarea mounts (the ref is set) with the caret at the start. */
    method Mount()
      requires Valid()
      modifies this
      ensures Valid() && mounted && selectionStart == selectionEnd == 0
      ensures value == old(value) && showEmojiPicker == old(showEmojiPicker)
      ensures showImageUpload == old(showImageUpload) && imageUrl == old(imageUrl)
    {
      mounted := true;
      selectionStart, selectionEnd := 0, 0;
    }

    /** Typing or selecting in the textarea. */
    method UserEdit(newValue: string, start: nat, end: nat)
      requires Valid() && start <= end <= |newValue|
      modifies this
      ensures Valid() && value == newValue && selectionStart == start && selectionEnd == end
      ensures mounted == old(mounted) && showEmojiPicker == old(showEmojiPicker)
      ensures showImageUpload == old(showImageUpload) && imageUrl == old(imageUrl)
    {
      value := newValue;
      selectionStart, selectionEnd := start, end;
    }

    /**
     * `insertText(before, after)`: wraps the selection in the markers and
     * selects the same text again, now between them. Without a textarea
     * nothing happens.
     */
    method InsertText(before: string, after: string)
      requires Valid()
      modifies this
      ensures Valid()
      ensures mounted == old(mounted) && showEmojiPicker == old(showEmojiPicker)
      ensures showImageUpload == old(showImageUpload) && imageUrl == old(imageUrl)
      ensures !old(mounted) ==>
        value == old(value)
        && selectionStart == old(selectionStart) && selectionEnd == old(selectionEnd)
      ensures old(mounted) ==>
        value == Splice(old(value), old(selectionStart), old(selectionEnd), before, after)
        && selectionStart == old(selectionStart) + |before|
        && selectionEnd == selectionStart + (old(selectionEnd) - old(selectionStart))
        && value[selectionStart..selectionEnd] == old(value)[old(selectionStart)..old(selectionEnd)]
    {
      if !mounted { return; }
      var start, end := selectionStart, selectionEnd;
      var newText := Splice(value, start, end, before, after);
      value := newText;
      selectionStart := start + |before|;
      selectionEnd := start + |before| + (end - start);
    }

    /** A toolbar button. */
    method Press(b: ToolbarButton)
      requires Valid()
      modifies this
      ensures Valid()
      ensures mounted == old(mounted) && showEmojiPicker == old(showEmojiPicker)
      ensures showImageUpload == old(showImageUpload) && imageUrl == old(imageUrl)
      ensures !old(mounted) ==>
        value == old(value)
        && selectionStart == old(selectionStart) && selectionEnd == old(selectionEnd)
      ensures old(mounted) ==>
        value == Splice(old(value), old(selectionStart), old(selectionEnd), Before(b), After(b))
        && selectionStart == old(selectionStart) + |Before(b)|
        && selectionEnd == selectionStart + (old(selectionEnd) - old(selectionStart))
    {
      InsertText(Before(b), After(b));
    }

    /**
     * `insertEmoji(emoji)`: inserts at the start of the selection, leaving
     * any selected text after it, puts the caret just past the emoji and
     * closes the picker. Without a textarea nothing happens, and the
     * picker stays open.
     */
    method InsertEmoji(emoji: string)
      requires Valid()
      modifies this
      ensures Valid()
      ensures mounted == old(mounted)
      ensures showImageUpload == old(showImageUpload) && imageUrl == old(imageUrl)
      ensures !old(mounted) ==>
        value == old(value) && showEmojiPicker == old(showEmojiPicker)
        && selectionStart == old(selectionStart) && selectionEnd == old(selectionEnd)
      ensures old(mounted) ==>
        value == Splice(old(value), old(selectionStart), old(selectionStart), emoji, [])
        && selectionStart == selectionEnd == old(selectionStart) + |emoji|
        && !showEmojiPicker
    {
      if !mounted { return; }
      var start := selectionStart;
      value := value[..start] + emoji + value[start..];
      showEmojiPicker := false;
      selectionStart, selectionEnd := start + |emoji|, start + |emoji|;
    }

    /** The `i`-th emoji button of the picker. */
    method PickEmoji(i: nat)
      requires Valid() && i < |Emojis|
      modifies this
      ensures Valid()
      ensures mounted == old(mounted)
      ensures showImageUpload == old(showImageUpload) && imageUrl == old(imageUrl)
      ensures !old(mounted) ==>
        value == old(value) && showEmojiPicker == old(showEmojiPicker)
        && selectionStart == old(selectionStart) && selectionEnd == old(selectionEnd)
      ensures old(mounted) ==>
        value == Splice(old(value), old(selectionStart), old(selectionStart), Emojis[i], [])
        && selectionStart == selectionEnd == old(selectionStart) + |Emojis[i]|
        && !showEmojiPicker
    {
      InsertEmoji(Emojis[i]);
    }

    /** The emoji button toggles the picker. */
    method ToggleEmojiPicker()
      requires Valid()
      modifies this
      ensures Valid() && showEmojiPicker == !old(showEmojiPicker)
      ensures value == old(value) && mounted == old(mounted) && imageUrl == old(imageUrl)
      ensures selectionStart == old(selectionStart) && selectionEnd == old(selectionEnd)
      ensures showImageUpload == old(showImageUpload)
    {
      showEmojiPicker := !showEmojiPicker;
    }

    /** The image button toggles the URL panel. */
    method ToggleImageUpload()
      requires Valid()
      modifies this
      ensures Valid() && showImageUpload == !old(showImageUpload)
      ensures value == old(value) && mounted == old(mounted) && imageUrl == old(imageUrl)
      ensures selectionStart == old(selectionStart) && selectionEnd == old(selectionEnd)
      ensures showEmojiPicker == old(showEmojiPicker)
    {
      showImageUpload := !showImageUpload;
    }

    /** Typing in the URL field. */
    method SetImageUrl(url: string)
      requires Valid()
      modifies this
      ensures Valid() && imageUrl == url
      ensures value == old(value) && mounted == old(mounted)
      ensures selectionStart == old(selectionStart) && selectionEnd == old(selectionEnd)
      ensures showEmojiPicker == old(showEmojiPicker) && showImageUpload == old(showImageUpload)
    {
      imageUrl := url;
    }

    /** The Insert button is disabled while the URL is blank. */
    predicate InsertImageDisabled()
      reads this
    {
      Trim(imageUrl) == []
    }

    /**
     * `insertImage`: with a blank URL (the Insert button disabled) nothing
     * happens. Otherwise the image link, built from the URL as typed
     * (untrimmed), is inserted as by
     * `insertText`, and the URL is cleared and the panel closed even when
     * there is no textarea to insert into.
     */
    method InsertImage()
      requires Valid()
      modifies this
      ensures Valid()
      ensures mounted == old(mounted) && showEmojiPicker == old(showEmojiPicker)
      ensures old(InsertImageDisabled()) ==>
        value == old(value) && imageUrl == old(imageUrl)
        && showImageUpload == old(showImageUpload)
        && selectionStart == old(selectionStart) && selectionEnd == old(selectionEnd)
      ensures !old(InsertImageDisabled()) ==> imageUrl == [] && !showImageUpload
      ensures !old(InsertImageDisabled()) && old(mounted) ==>
        value == Splice(old(value), old(selectionStart), old(selectionEnd), ImageMarkdown(old(imageUrl)), [])
        && selectionStart == old(selectionStart) + |ImageMarkdown(old(imageUrl))|
        && selectionEnd == selectionStart + (old(selectionEnd) - old(selectionStart))
      ensures !old(InsertImageDisabled()) && !old(mounted) ==>
        value == old(value)
        && selectionStart == old(selectionStart) && selectionEnd == old(selectionEnd)
    {
      if !InsertImageDisabled() {
        InsertText(ImageMarkdown(imageUrl), []);
        imageUrl := [];
        showImageUpload := false;
      }
    }
  }
}
