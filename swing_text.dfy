/**
 * The single-line Swing text field the filter bar is built on, as a value:
 * its document text and its caret (`dot` is where the caret is, `mark` the
 * other end of the selection). The operations are those of JTextComponent,
 * DefaultCaret and AbstractDocument that the completion controller uses.
 */
module SwingText {
  import opened Options

  datatype Buffer = Buffer(text: string, dot: nat, mark: nat)

  /**
   * A Swing document's content always ends in an implied newline that is not
   * part of the text; reads of the content may reach it.
   */
  const EndOfContent: char := '\n'

  predicate ValidBuffer(b: Buffer)
  {
    b.dot <= |b.text| && b.mark <= |b.text|
  }

  function SelectionStart(b: Buffer): nat
  {
    if b.dot <= b.mark then b.dot else b.mark
  }

  function SelectionEnd(b: Buffer): nat
  {
    if b.dot <= b.mark then b.mark else b.dot
  }

  /** getSelectedText(): null when the selection is empty. */
  function SelectedText(b: Buffer): Option<string>
    requires ValidBuffer(b)
  {
    if SelectionStart(b) == SelectionEnd(b) then None
    else Some(b.text[SelectionStart(b)..SelectionEnd(b)])
  }

  /**
   * Document.getText(offset, length): a piece of the content (the text and its
   * implied trailing newline); None where Swing throws BadLocationException.
   */
  function GetText(text: string, offset: nat, length: nat): Option<string>
  {
    if offset + length <= |text| + 1 then Some((text + [EndOfContent])[offset..offset + length])
    else None
  }

  /** setText(t): the document is replaced and the caret follows the insertion to its end. */
  function SetText(t: string): Buffer
  {
    Buffer(t, |t|, |t|)
  }

  /** setCaretPosition(p): collapses the selection at `p`. */
  function SetCaretPosition(b: Buffer, p: nat): Buffer
    requires p <= |b.text|
  {
    Buffer(b.text, p, p)
  }

  /** moveCaretPosition(p): moves the dot, keeping the mark, so selecting between them. */
  function MoveCaretPosition(b: Buffer, p: nat): Buffer
    requires p <= |b.text|
  {
    b.(dot := p)
  }

  /**
   * replaceSelection(s): the selection is removed and `s` inserted in its place
   * (through the document filter's replace, which this project's filter does not
   * override); the caret ends after the inserted text.
   */
  function ReplaceSelection(b: Buffer, s: string): Buffer
    requires ValidBuffer(b)
  {
    var p0 := SelectionStart(b);
    var p1 := SelectionEnd(b);
    Buffer(b.text[..p0] + s + b.text[p1..], p0 + |s|, p0 + |s|)
  }

  /** DefaultCaret's update of one caret end after `length` chars at `offset` are removed. */
  function CaretAfterRemove(p: nat, offset: nat, length: nat): nat
  {
    if p >= offset + length then p - length
    else if p >= offset then offset
    else p
  }

  /** AbstractDocument's removal of `length` chars at `offset`, caret adjusted. */
  function RemoveRange(b: Buffer, offset: nat, length: nat): Buffer
    requires offset + length <= |b.text|
  {
    Buffer(b.text[..offset] + b.text[offset + length..],
           CaretAfterRemove(b.dot, offset, length),
           CaretAfterRemove(b.mark, offset, length))
  }

  lemma ReplaceSelectionValid(b: Buffer, s: string)
    requires ValidBuffer(b)
    ensures ValidBuffer(ReplaceSelection(b, s))
    ensures |ReplaceSelection(b, s).text| == |b.text| - (SelectionEnd(b) - SelectionStart(b)) + |s|
  {
  }

  lemma RemoveRangeValid(b: Buffer, offset: nat, length: nat)
    requires ValidBuffer(b) && offset + length <= |b.text|
    ensures ValidBuffer(RemoveRange(b, offset, length))
  {
  }
}
