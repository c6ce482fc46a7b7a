/**
 * The Markdown editor component: the toolbar's text insertion around the
 * textarea's selection, and which parts of the component are rendered for a
 * given pair of preview flags.
 *
 * The page's DOM is reduced to one fact: the element with id "markdown-editor"
 * is this component's textarea, so it can be found exactly when the textarea is
 * rendered, and then it carries a selection.
 */
module MarkdownEditor {
  import opened Wrappers

  /** A textarea selection. The DOM keeps 0 <= start <= end <= length of the text. */
  datatype Selection = Selection(start: nat, end: nat)

  /** What `insertText` hands on: the new text and the selection it restores. */
  datatype Edit = Edit(text: string, selectionStart: int, selectionEnd: int)

  /** The selection lies within `value`, as the DOM guarantees for a textarea showing `value`. */
  predicate InRange(value: string, sel: Selection) {
    sel.start <= sel.end <= |value|
  }

  /** An index clamped to [0, n], as `String.prototype.substring` clamps its arguments. */
  function Clamp(i: int, n: nat): (r: nat)
    ensures r <= n
    ensures 0 <= i <= n ==> r == i
    ensures i < 0 ==> r == 0
    ensures i > n ==> r == n
  {
    if i < 0 then 0 else if i > n then n else i
  }

  /**
   * `s.substring(a, b)`: both indices clamped to the string, and swapped when the
   * first is the larger.
   */
  function Substring(s: string, a: int, b: int): (r: string)
    ensures 0 <= a <= b <= |s| ==> r == s[a..b]
    ensures |r| <= |s|
  {
    var lo := Clamp(a, |s|);
    var hi := Clamp(b, |s|);
    if lo <= hi then s[lo..hi] else s[hi..lo]
  }

  /** The order of the arguments of `substring` does not matter. */
  lemma SubstringSymmetric(s: string, a: int, b: int)
    ensures Substring(s, a, b) == Substring(s, b, a)
  {
  }

  /**
   * `insertText(before, after)`: with no editor element, nothing happens; otherwise
   * the selected text is wrapped in `before` and `after`, and the new selection
   * covers the text that was selected.
   */
  function InsertText(value: string, editor: Option<Selection>, before: string, after: string): (r: Option<Edit>)
    ensures r.None? <==> editor.None?
    ensures editor.Some? && InRange(value, editor.value) ==>
              var s, e := editor.value.start, editor.value.end;
              var t := r.value.text;
              && |t| == |value| + |before| + |after|
              && r.value.selectionStart == s + |before|
              && r.value.selectionEnd == s + |before| + (e - s)
              && t[..s] == value[..s]
              && t[s..s + |before|] == before
              && t[s + |before|..s + |before| + (e - s)] == value[s..e]
              && t[s + |before| + (e - s)..s + |before| + (e - s) + |after|] == after
              && t[s + |before| + (e - s) + |after|..] == value[e..]
  {
    match editor
    case None => None
    case Some(sel) =>
      var start, end := sel.start, sel.end;
      var selectedText := Substring(value, start, end);
      var newText := Substring(value, 0, start) + before + selectedText + after + Substring(value, end, |value|);
      Some(Edit(newText, start + |before|, start + |before| + |selectedText|))
  }

  /** The new text is the old one with `before` and `after` spliced in at the ends of the selection. */
  lemma InsertTextSplice(value: string, sel: Selection, before: string, after: string)
    requires InRange(value, sel)
    ensures InsertText(value, Some(sel), before, after).value.text
            == value[..sel.start] + before + value[sel.start..sel.end] + after + value[sel.end..]
  {
  }

  /**
   * Taking the markers back out of an edit: the text before `before`, the
   * selection, and the text after `after`.
   */
  function StripMarkers(edit: Edit, beforeLength: nat, afterLength: nat): (r: string)
    requires beforeLength <= edit.selectionStart <= edit.selectionEnd
    requires edit.selectionEnd + afterLength <= |edit.text|
    ensures |r| == |edit.text| - beforeLength - afterLength
  {
    edit.text[..edit.selectionStart - beforeLength]
    + edit.text[edit.selectionStart..edit.selectionEnd]
    + edit.text[edit.selectionEnd + afterLength..]
  }

  /** Stripping the markers an insertion added gives back the original text. */
  lemma StripMarkersInsertText(value: string, sel: Selection, before: string, after: string)
    requires InRange(value, sel)
    ensures var edit := InsertText(value, Some(sel), before, after).value;
            && |before| <= edit.selectionStart <= edit.selectionEnd
            && edit.selectionEnd + |after| <= |edit.text|
            && StripMarkers(edit, |before|, |after|) == value
  {
    var edit := InsertText(value, Some(sel), before, after).value;
    var s, e := sel.start, sel.end;
    var t := edit.text;
    assert t[..edit.selectionStart - |before|] == value[..s];
    assert t[edit.selectionStart..edit.selectionEnd] == value[s..e];
    assert t[edit.selectionEnd + |after|..] == value[e..];
    assert value == value[..s] + value[s..e] + value[e..];
  }

  /** The five toolbar buttons, in the order they are shown. */
  datatype ToolbarAction = Bold | Italic | Link | Image | Code

  /** The toolbar lists every action exactly once. */
  function Toolbar(): (r: seq<ToolbarAction>)
    ensures |r| == 5
    ensures Bold in r && Italic in r && Link in r && Image in r && Code in r
    ensures forall i, j :: 0 <= i < j < |r| ==> r[i] != r[j]
  {
    [Bold, Italic, Link, Image, Code]
  }

  /** The button's title, shown on hover. */
  function Title(a: ToolbarAction): (r: string)
    ensures r != ""
  {
    match a
    case Bold => "Bold"
    case Italic => "Italic"
    case Link => "Link"
    case Image => "Image"
    case Code => "Code"
  }

  /**
   * The Markdown a button puts before and after the selection. Both markers are
   * non-empty; the emphasis and code markers are the same on both sides.
   */
  function Markers(a: ToolbarAction): (r: (string, string))
    ensures r.0 != "" && r.1 != ""
    ensures r.0 == r.1 <==> a == Bold || a == Italic || a == Code
  {
    match a
    case Bold => ("**", "**")
    case Italic => ("*", "*")
    case Link => ("[", "](url)")
    case Image => ("![alt text](", ")")
    case Code => ("`", "`")
  }

  /** The toolbar, button by button: its title and the markers it inserts; no two titles agree. */
  lemma ToolbarButtons()
    ensures Toolbar() == [Bold, Italic, Link, Image, Code]
    ensures Title(Bold) == "Bold" && Markers(Bold) == ("**", "**")
    ensures Title(Italic) == "Italic" && Markers(Italic) == ("*", "*")
    ensures Title(Link) == "Link" && Markers(Link) == ("[", "](url)")
    ensures Title(Image) == "Image" && Markers(Image) == ("![alt text](", ")")
    ensures Title(Code) == "Code" && Markers(Code) == ("`", "`")
    ensures forall a, b :: Title(a) == Title(b) ==> a == b
  {
  }

  /** A toolbar button's click handler. */
  function ApplyAction(value: string, editor: Option<Selection>, a: ToolbarAction): (r: Option<Edit>)
    ensures r.None? <==> editor.None?
    ensures editor.Some? && InRange(value, editor.value) ==>
              && |r.value.text| > |value|
              && 0 <= r.value.selectionStart <= r.value.selectionEnd <= |r.value.text|
              && r.value.text[r.value.selectionStart..r.value.selectionEnd]
                 == value[editor.value.start..editor.value.end]
  {
    InsertText(value, editor, Markers(a).0, Markers(a).1)
  }

  /** Bold on an empty selection inserts "****" at the cursor and leaves the cursor between the pairs. */
  lemma BoldAtCursor(value: string, k: nat)
    requires k <= |value|
    ensures ApplyAction(value, Some(Selection(k, k)), Bold) == Some(Edit(value[..k] + "****" + value[k..], k + 2, k + 2))
  {
    InsertTextSplice(value, Selection(k, k), "**", "**");
    assert value[k..k] == [];
    assert value[..k] + "**" + value[k..k] + "**" + value[k..] == value[..k] + "****" + value[k..];
  }

  /** Link on a selection turns it into a link whose text is the selection and whose target is "url". */
  lemma LinkWrapsSelection(value: string, sel: Selection)
    requires InRange(value, sel)
    ensures ApplyAction(value, Some(sel), Link).value.text
            == value[..sel.start] + "[" + value[sel.start..sel.end] + "](url)" + value[sel.end..]
  {
    InsertTextSplice(value, sel, "[", "](url)");
  }

  /** The component's two preview flags: the page's `isPreview` prop and the local toggle. */
  datatype View = View(isPreview: bool, localPreview: bool)

  /** The preview pane is shown when either flag is set. */
  function ShowPreview(v: View): (r: bool)
    ensures v.isPreview ==> r
    ensures !v.isPreview ==> (r <==> v.localPreview)
  {
    v.isPreview || v.localPreview
  }

  /** The header reads "Preview" or "Editor". */
  function Heading(v: View): (r: string)
    ensures r == "Preview" || r == "Editor"
    ensures r == "Preview" <==> ShowPreview(v)
  {
    if ShowPreview(v) then "Preview" else "Editor"
  }

  /** The formatting buttons are rendered only when the page is not in preview. */
  function ToolbarShown(v: View): (r: bool)
    ensures r <==> !v.isPreview
    ensures !r ==> ShowPreview(v)
  {
    !v.isPreview
  }

  /** The textarea is rendered only when no preview is shown. */
  function TextareaShown(v: View): (r: bool)
    ensures r <==> !v.isPreview && !v.localPreview
    ensures r != ShowPreview(v)
  {
    !ShowPreview(v)
  }

  /** The preview/edit toggle flips the local flag only. */
  function TogglePreview(v: View): (r: View)
    ensures r.isPreview == v.isPreview && r.localPreview != v.localPreview
  {
    v.(localPreview := !v.localPreview)
  }

  /**
   * The toggle's label: "Edit" while the local preview is on, "Preview" otherwise,
   * so it names the local mode a click switches to.
   */
  function ToggleLabel(v: View): (r: string)
    ensures r == "Edit" || r == "Preview"
    ensures r == "Preview" <==> TogglePreview(v).localPreview
  {
    if v.localPreview then "Edit" else "Preview"
  }

  /** What the preview pane renders: the text, or a placeholder when it is empty. */
  function PreviewSource(value: string): (r: string)
    ensures r != ""
    ensures value != "" ==> r == value
  {
    if value == "" then "Nothing to preview..." else value
  }

  /** The editor element as `getElementById` finds it: present exactly when the textarea is rendered. */
  function EditorElement(v: View, sel: Selection): (r: Option<Selection>)
    ensures r.Some? <==> TextareaShown(v)
  {
    if TextareaShown(v) then Some(sel) else None
  }

  /** Clicking a formatting button in view `v`. */
  function Click(value: string, v: View, sel: Selection, a: ToolbarAction): (r: Option<Edit>)
    ensures r.None? <==> v.isPreview || v.localPreview
    ensures r.Some? && InRange(value, sel) ==>
              && |r.value.text| == |value| + |Markers(a).0| + |Markers(a).1|
              && 0 <= r.value.selectionStart <= r.value.selectionEnd <= |r.value.text|
              && r.value.text[r.value.selectionStart..r.value.selectionEnd] == value[sel.start..sel.end]
  {
    ApplyAction(value, EditorElement(v, sel), a)
  }

  /**
   * The rendered parts: exactly one of the preview pane and the textarea; the
   * header names the one shown; the page's preview hides the toolbar and forces
   * the preview whatever the local flag; and toggling twice changes nothing.
   */
  lemma ViewLayout(v: View)
    ensures TextareaShown(v) != ShowPreview(v)
    ensures Heading(v) == "Preview" <==> ShowPreview(v)
    ensures v.isPreview ==> !ToolbarShown(v) && ShowPreview(v) && ShowPreview(TogglePreview(v))
    ensures TextareaShown(v) ==> ToolbarShown(v)
    ensures TogglePreview(TogglePreview(v)) == v
    ensures ToggleLabel(v) == "Edit" <==> v.localPreview
  {
  }

  /**
   * With the toolbar visible but the local preview on, the textarea is not
   * rendered, so a formatting click finds no element and changes nothing.
   */
  lemma ClickInLocalPreviewDoesNothing(value: string, v: View, sel: Selection, a: ToolbarAction)
    requires ToolbarShown(v) && v.localPreview
    ensures Click(value, v, sel, a).None?
  {
  }

  /** In plain editing mode, a formatting click wraps the selection with the button's markers. */
  lemma ClickWhileEditing(value: string, v: View, sel: Selection, a: ToolbarAction)
    requires !v.isPreview && !v.localPreview
    requires InRange(value, sel)
    ensures ToolbarShown(v)
    ensures Click(value, v, sel, a).Some?
    ensures Click(value, v, sel, a).value.text
            == value[..sel.start] + Markers(a).0 + value[sel.start..sel.end] + Markers(a).1 + value[sel.end..]
  {
    InsertTextSplice(value, sel, Markers(a).0, Markers(a).1);
  }
}
