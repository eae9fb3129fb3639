/** `splitIntoSpans` (script.js lines 17-28): the name element's text is cut
    into one cell per Unicode code point. */
module Segmenter {
  import opened Wrappers

  /** One `<span class="char">`: `original` is its `data-original`, written
      once, and `shown` its `textContent`, which the scramble rewrites. */
  class Span {
    const original: char
    var shown: char

    constructor (ch: char)
      ensures original == ch && shown == ch
    {
      original := ch;
      shown := ch;
    }
  }

  /** The element that holds the name. `dataText` is its `data-text`
      attribute; `markup` is the text of whatever it holds besides its cells
      (None stands for a null `textContent`); `cells` are its character spans. */
  class Container {
    const dataText: Option<string>
    var markup: Option<string>
    var cells: seq<Span>

    constructor (dataText: Option<string>, markup: Option<string>)
      ensures this.dataText == dataText && this.markup == markup && cells == []
    {
      this.dataText := dataText;
      this.markup := markup;
      cells := [];
    }

    /** `el.textContent`: the text of its other content followed by the
        glyphs its cells show. */
    function TextContent(): (t: Option<string>)
      reads this, cells
      ensures markup.Some? ==> t == Some(markup.value + Shown(cells))
      ensures cells == [] ==> t == markup
    {
      match markup
      case Some(m) => assert cells == [] ==> m + Shown(cells) == m; Some(m + Shown(cells))
      case None => if cells == [] then None else Some(Shown(cells))
    }
  }

  /** The glyphs the cells show, in order. */
  function Shown(cells: seq<Span>): (s: string)
    reads cells
    ensures |s| == |cells| && forall k :: 0 <= k < |cells| ==> s[k] == cells[k].shown
  {
    if cells == [] then "" else Shown(cells[..|cells| - 1]) + [cells[|cells| - 1].shown]
  }

  /** The original glyphs of the cells, in order. */
  function Originals(cells: seq<Span>): (s: string)
    ensures |s| == |cells| && forall k :: 0 <= k < |cells| ==> s[k] == cells[k].original
  {
    if cells == [] then "" else Originals(cells[..|cells| - 1]) + [cells[|cells| - 1].original]
  }

  /** `el.dataset.text ?? el.textContent ?? ""`: the data attribute when it
      is present, even if empty; else the element's text; else nothing. */
  function SourceText(dataText: Option<string>, textContent: Option<string>): (text: string)
    ensures dataText.Some? ==> text == dataText.value
    ensures dataText.None? && textContent.Some? ==> text == textContent.value
    ensures dataText.None? && textContent.None? ==> text == ""
  {
    dataText.GetOr(textContent.GetOr(""))
  }

  /** `splitIntoSpans(el)`: whatever the element held is discarded and it
      gets one fresh cell per code point of its source text, in order, each
      cell's original and shown glyph being that code point; the element then
      reads back exactly that text. */
  method SplitIntoSpans(el: Container)
    modifies el
    ensures el.markup == Some("")
    ensures Originals(el.cells) == old(SourceText(el.dataText, el.TextContent()))
    ensures Shown(el.cells) == Originals(el.cells)
    ensures el.TextContent() == Some(Originals(el.cells))
    ensures forall k :: 0 <= k < |el.cells| ==> fresh(el.cells[k])
    ensures forall j, k :: 0 <= j < k < |el.cells| ==> el.cells[j] != el.cells[k]
  {
    var text := SourceText(el.dataText, el.TextContent());
    el.markup := Some("");
    el.cells := [];
    for n := 0 to |text|
      invariant el.markup == Some("")
      invariant |el.cells| == n
      invariant forall k :: 0 <= k < n ==> el.cells[k].original == text[k] && el.cells[k].shown == text[k]
      invariant forall k :: 0 <= k < n ==> fresh(el.cells[k])
      invariant forall j, k :: 0 <= j < k < n ==> el.cells[j] != el.cells[k]
    {
      var span := new Span(text[n]);
      el.cells := el.cells + [span];
    }
    assert Shown(el.cells) == Originals(el.cells) == text;
    assert "" + Shown(el.cells) == text;
  }
}
