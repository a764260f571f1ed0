/**
 * The autocompletion and bracket-balancing controller of the jq filter bar:
 * the document filter that widens deletions over empty pairs, the document
 * listener that reacts to each typed character, the two deferred tasks it
 * schedules, and the commit (TAB) action.
 */
module JqCompletion {
  import opened Options
  import opened Lexicographic
  import opened JavaCollections
  import opened SwingText
  import opened JqKeywords

  datatype Mode = Insert | Completion

  /** The pairs balanced automatically, each as its opening then its closing char. */
  const Mates: seq<string> := ["()", "{}", "[]", "''", "\"\""]

  /** `(char) 0`: the mate of a MatesTask that deletes instead of inserting. */
  const NoMate: char := '\0'

  /** Character.isLetter, restricted to ASCII letters. */
  predicate IsLetter(c: char)
  {
    'a' <= c <= 'z' || 'A' <= c <= 'Z'
  }

  /** The chars that continue a word: letters and '_'. */
  predicate IsWordChar(c: char)
  {
    IsLetter(c) || c == '_'
  }

  /** A job handed to SwingUtilities.invokeLater. */
  datatype Task =
    | MatesTask(mate: char, position: nat)
    | CompletionTask(completion: string, position: nat)

  /** What one insert notification does: nothing, schedule one task, or reset the mode. */
  datatype Reaction = NoChange | Schedule(task: Task) | ResetMode

  /** The word being typed, found by scanning back from the typed char. */
  datatype Token =
    | TooShort
    | Token(fromKeys: bool, start: nat)

  // ---------------------------------------------------------------------
  // The pair table

  predicate IsOpener(c: char)
  {
    exists i :: 0 <= i < |Mates| && Mates[i][0] == c
  }

  predicate IsCloser(c: char)
  {
    exists i :: 0 <= i < |Mates| && Mates[i][1] == c
  }

  ghost function CloserOf(c: char): char
    requires IsOpener(c)
  {
    var i :| 0 <= i < |Mates| && Mates[i][0] == c; Mates[i][1]
  }

  /**
   * The facts about the table the proofs use: every entry has two chars, no
   * char opens two pairs or closes two pairs, a char that both opens and
   * closes does so in one pair (the quotes), and no entry holds the implied
   * end-of-content newline or the NoMate char.
   */
  lemma MatesTable()
    ensures forall i :: 0 <= i < |Mates| ==> |Mates[i]| == 2
    ensures forall i, j :: 0 <= i < |Mates| && 0 <= j < |Mates| && Mates[i][0] == Mates[j][0] ==> i == j
    ensures forall i, j :: 0 <= i < |Mates| && 0 <= j < |Mates| && Mates[i][1] == Mates[j][1] ==> i == j
    ensures forall i, j :: 0 <= i < |Mates| && 0 <= j < |Mates| && Mates[i][0] == Mates[j][1] ==> i == j
    ensures forall i :: 0 <= i < |Mates| ==> Mates[i][0] != EndOfContent && Mates[i][1] != EndOfContent
    ensures forall i :: 0 <= i < |Mates| ==> Mates[i][1] != NoMate
  {
  }

  // ---------------------------------------------------------------------
  // The specification of the insert listener

  /**
   * The index of the char before the word that ends at `pos`: the nearest
   * non-word char at an index from 1 to `pos`, or 0 when there is none.
   */
  function WordStart(content: string, pos: nat): (w: nat)
    requires pos < |content|
    ensures w <= pos
    ensures 0 < w ==> !IsWordChar(content[w])
    ensures forall k :: w < k <= pos ==> IsWordChar(content[k])
    decreases pos
  {
    if pos == 0 || !IsWordChar(content[pos]) then pos else WordStart(content, pos - 1)
  }

  /**
   * The token ending at the last char of `content`: where it starts and
   * whether the '.' before it selects the JSON keys; a letter at index 0
   * starts the token there; a typed char that is not a word char gives none.
   */
  ghost function FindToken(content: string): Token
    requires |content| > 0
  {
    var pos := |content| - 1;
    var w := WordStart(content, pos);
    if w == 0 && IsLetter(content[0]) then Token(content[w] == '.', 0)
    else if pos - w < 1 then TooShort
    else Token(content[w] == '.', w + 1)
  }

  /**
   * Looking `prefix` up in a dictionary: an exact entry or an insertion point
   * past the end resets the mode; an entry at the insertion point that extends
   * the prefix gives the rest of that entry as the completion, to be inserted
   * at `at`; any other entry there changes nothing.
   */
  ghost function Resolve(dict: seq<string>, prefix: string, at: nat): Reaction
  {
    if prefix in dict then ResetMode
    else
      var ip := InsertionPoint(dict, prefix);
      if ip == |dict| then ResetMode
      else if StartsWith(dict[ip], prefix) then Schedule(CompletionTask(dict[ip][|prefix|..], at))
      else NoChange
  }

  ghost function WordReaction(content: string, keys: seq<string>, keywords: seq<string>): Reaction
    requires |content| > 0
  {
    match FindToken(content)
    case TooShort => NoChange
    case Token(fromKeys, start) =>
      Resolve(if fromKeys then keys else keywords, content[start..], |content|)
  }

  /**
   * The pair handling of a typed char `c` followed by `after`: a closer typed
   * before the same closer is deleted again, an opener gets its closer; the
   * task works at `at`, just behind the typed char.
   */
  ghost function MateReaction(c: char, after: char, at: nat): Option<Task>
  {
    if c == after && IsCloser(c) then Some(MatesTask(NoMate, at))
    else if IsOpener(c) then Some(MatesTask(CloserOf(c), at))
    else None
  }

  /**
   * What the listener does when `length` chars were inserted at `offset` of
   * `text`: only one-char inserts count, pairs come first, anything else goes
   * to completion against `keys` or `keywords`.
   */
  ghost function InsertReaction(text: string, offset: nat, length: nat, keys: seq<string>, keywords: seq<string>): Reaction
  {
    if length != 1 || offset >= |text| then NoChange
    else
      match MateReaction(text[offset], (text + [EndOfContent])[offset + 1], offset + 1)
      case Some(t) => Schedule(t)
      case None => WordReaction(text[..offset + 1], keys, keywords)
  }

  ghost function ModeAfter(mode: Mode, r: Reaction): Mode
  {
    if r == ResetMode then Insert else mode
  }

  ghost function PendingAfter(pending: seq<Task>, r: Reaction): seq<Task>
  {
    if r.Schedule? then pending + [r.task] else pending
  }

  // ---------------------------------------------------------------------
  // The specification of the filter, the tasks and the commit action

  /**
   * How many chars JqDocumentFilter.remove really removes: one more when a
   * one-char deletion hits the opening char of an empty pair; None where the
   * range is out of bounds and Swing throws.
   */
  ghost function RemovalLength(text: string, offset: nat, length: nat): Option<nat>
  {
    if offset + length > |text| then None
    else if length == 1 && offset + 2 <= |text| && text[offset..offset + 2] in Mates then Some(2)
    else Some(length)
  }

  ghost function FilterRemove(b: Buffer, offset: nat, length: nat): Buffer
  {
    match RemovalLength(b.text, offset, length)
    case None => b
    case Some(n) => RemoveRange(b, offset, n)
  }

  /**
   * A task's effect on the field and the mode. A position out of range makes
   * StringBuffer throw, and the task then does nothing.
   */
  ghost function TaskEffect(b: Buffer, mode: Mode, t: Task): (Buffer, Mode)
  {
    match t
    case MatesTask(mate, p) =>
      if mate != NoMate then
        if p <= |b.text| then (Buffer(b.text[..p] + [mate] + b.text[p..], p, p), mode) else (b, mode)
      else
        if p < |b.text| then (Buffer(b.text[..p] + b.text[p + 1..], p, p), mode) else (b, mode)
    case CompletionTask(s, p) =>
      if p <= |b.text| then (Buffer(b.text[..p] + s + b.text[p..], p, p + |s|), Completion) else (b, mode)
  }

  /**
   * The caret after accepting a completion: one before the selection's end
   * when the selected text ends in ')', at the end otherwise.
   */
  ghost function AcceptCaret(b: Buffer): nat
    requires ValidBuffer(b)
  {
    var sel := SelectedText(b);
    if sel.Some? && sel.value[|sel.value| - 1] == ')' then SelectionEnd(b) - 1 else SelectionEnd(b)
  }

  /**
   * setText(t) replaces the whole document, so the listener hears of an
   * insert of all of `t` at 0; that counts only when `t` is one char long.
   */
  ghost function SetTextReaction(t: string, keys: seq<string>): Reaction
  {
    InsertReaction(t, 0, |t|, keys, Keywords)
  }

  /** Whether a task's position is in range, so that its StringBuffer edit does not throw. */
  ghost predicate TaskApplies(b: Buffer, t: Task)
  {
    match t
    case MatesTask(mate, p) => if mate != NoMate then p <= |b.text| else p < |b.text|
    case CompletionTask(_, p) => p <= |b.text|
  }

  /** The listener's reaction to a task's own setText call; none when the task throws first. */
  ghost function TaskReaction(b: Buffer, t: Task, keys: seq<string>): Reaction
  {
    if TaskApplies(b, t) then SetTextReaction(TaskEffect(b, Insert, t).0.text, keys) else NoChange
  }

  /** The commit action: accept the completion, or type a TAB. */
  ghost function CommitEffect(b: Buffer, mode: Mode): (Buffer, Mode)
    requires ValidBuffer(b)
  {
    if mode == Completion then (SetCaretPosition(b, AcceptCaret(b)), Insert)
    else (ReplaceSelection(b, "\t"), Insert)
  }

  /**
   * The listener's reaction during the commit action: accepting a completion
   * calls setText with the unchanged text; a typed TAB is inert.
   */
  ghost function CommitReaction(b: Buffer, mode: Mode, keys: seq<string>): Reaction
  {
    if mode == Completion then SetTextReaction(b.text, keys) else NoChange
  }

  /** The opening and the closing chars of the table, spelled out. */
  lemma MateChars(c: char)
    ensures IsOpener(c) <==> c == '(' || c == '{' || c == '[' || c == '\'' || c == '"'
    ensures IsCloser(c) <==> c == ')' || c == '}' || c == ']' || c == '\'' || c == '"'
  {
    if c == '(' || c == '{' || c == '[' || c == '\'' || c == '"' {
      var i := if c == '(' then 0 else if c == '{' then 1 else if c == '[' then 2 else if c == '\'' then 3 else 4;
      assert Mates[i][0] == c;
    }
    if c == ')' || c == '}' || c == ']' || c == '\'' || c == '"' {
      var i := if c == ')' then 0 else if c == '}' then 1 else if c == ']' then 2 else if c == '\'' then 3 else 4;
      assert Mates[i][1] == c;
    }
  }

  /** A TAB typed anywhere gives the listener nothing to do. */
  lemma TabIsInert(text: string, offset: nat, keys: seq<string>, keywords: seq<string>)
    requires offset < |text| && text[offset] == '\t'
    ensures InsertReaction(text, offset, 1, keys, keywords) == NoChange
  {
    MateChars('\t');
    var content := text[..offset + 1];
    assert content[offset] == '\t';
    assert WordStart(content, offset) == offset;
  }

  // ---------------------------------------------------------------------
  // The loops of the listener, each against its part of the specification

  /** The `for` loop over the mates. */
  method MatesFor(c: char, after: char, at: nat) returns (t: Option<Task>)
    ensures t == MateReaction(c, after, at)
  {
    MatesTable();
    for i := 0 to |Mates|
      invariant forall j :: 0 <= j < i ==> !(c == after && c == Mates[j][1])
      invariant forall j :: 0 <= j < i ==> c != Mates[j][0]
    {
      if c == after && c == Mates[i][1] {
        // the closer is already there: queue the deletion of the typed copy
        return Some(MatesTask(NoMate, at));
      } else if c == Mates[i][0] {
        // an opener: queue the insertion of its closer
        assert CloserOf(c) == Mates[i][1];
        return Some(MatesTask(Mates[i][1], at));
      }
    }
    return None;
  }

  /** The backward scan for the start of the word. */
  method ScanWordStart(content: string, pos: nat) returns (w: nat)
    requires pos < |content|
    ensures w == WordStart(content, pos)
  {
    w := pos;
    while w > 0
      invariant w <= pos
      invariant WordStart(content, w) == WordStart(content, pos)
    {
      if !IsLetter(content[w]) && content[w] != '_' {
        break;
      }
      w := w - 1;
    }
  }

  /**
   * The word before the typed char (the last char of `content`): where the
   * scan stops, whether the keys are searched, and the start-of-field and
   * too-few-chars cases.
   */
  method ScanToken(content: string) returns (t: Token)
    requires |content| > 0
    ensures t == FindToken(content)
  {
    var pos := |content| - 1;

    // scan back to the word boundary
    var start := ScanWordStart(content, pos);
    var w: int := start;

    // a '.' at the boundary selects the key list
    var fromKeys := content[w] == '.';

    // a letter at index 0 belongs to the token; otherwise an empty token ends the lookup
    if w == 0 && IsLetter(content[w]) {
      w := w - 1;
    } else if pos - w < 1 {
      return TooShort;
    }
    t := Token(fromKeys, w + 1);
  }

  /**
   * The rest of insertUpdate once the typed char is not a pair char: find the
   * word, pick the dictionary, search it and decide.
   */
  method WordLookup(content: string, keys: seq<string>, keywords: seq<string>) returns (r: Reaction)
    requires |content| > 0 && Sorted(keys) && Sorted(keywords)
    ensures r == WordReaction(content, keys, keywords)
  {
    var t := ScanToken(content);
    if t.TooShort? {
      return NoChange;
    }
    var lst := keywords;
    if t.fromKeys {
      lst := keys;
    }
    var prefix := content[t.start..];
    r := Lookup(lst, prefix, |content|);
  }

  /**
   * Collections.binarySearch for the prefix and the decision on its result;
   * the completion is the candidate minus the prefix's `pos - w` chars.
   */
  method Lookup(dict: seq<string>, prefix: string, at: nat) returns (r: Reaction)
    requires Sorted(dict)
    ensures r == Resolve(dict, prefix, at)
  {
    var n := BinarySearch(dict, prefix);
    if n < 0 && -n <= |dict| {
      InsertionPointSplits(dict, prefix, -n - 1);
      var candidate := dict[-n - 1];
      if StartsWith(candidate, prefix) {
        // the entry extends the prefix: queue the rest of it
        var completion := candidate[|prefix|..];
        r := Schedule(CompletionTask(completion, at));
      } else {
        r := NoChange;
      }
    } else {
      // an exact hit, or every entry sorts below the prefix
      if n < 0 {
        InsertionPointSplits(dict, prefix, -n - 1);
      }
      r := ResetMode;
    }
  }

  // ---------------------------------------------------------------------
  // The controller

  class JqComplete {
    /** The text field the controller is attached to. */
    var field: Buffer
    var mode: Mode
    /** The JSON keys of the current message, searched after a '.'. */
    var keys: seq<string>
    /** The tasks handed to invokeLater and not run yet, oldest first. */
    var pending: seq<Task>

    ghost predicate Valid()
      reads this
    {
      ValidBuffer(field) && Sorted(keys)
    }

    constructor ()
      ensures Valid()
      ensures field == Buffer([], 0, 0) && mode == Insert && keys == [] && pending == []
    {
      field := Buffer([], 0, 0);
      mode := Insert;
      keys := [];
      pending := [];
    }

    /** addKeyword: the key is appended and the list sorted again. */
    method AddKeyword(keyword: string)
      requires Valid()
      modifies this
      ensures Valid()
      ensures multiset(keys) == multiset(old(keys)) + multiset{keyword}
      ensures keys == InsertSorted(old(keys), keyword)
      ensures field == old(field) && mode == old(mode) && pending == old(pending)
    {
      keys := keys + [keyword];
      keys := SortedOf(keys);
      SortedUnique(keys, InsertSorted(old(keys), keyword));
    }

    /** setKeywords(List): the list, sorted. */
    method SetKeywordsFromList(list: seq<string>)
      requires Valid()
      modifies this
      ensures Valid()
      ensures keys == SortedOf(list)
      ensures multiset(keys) == multiset(list)
      ensures field == old(field) && mode == old(mode) && pending == old(pending)
    {
      keys := list;
      keys := SortedOf(keys);
    }

    /** setKeywords(HashSet): the set's elements, each once, sorted. */
    method SetKeywordsFromSet(s: set<string>)
      requires Valid()
      modifies this
      ensures Valid()
      ensures forall x :: x in keys <==> x in s
      ensures forall i, j :: 0 <= i < j < |keys| ==> keys[i] != keys[j]
      ensures field == old(field) && mode == old(mode) && pending == old(pending)
    {
      keys := ListOfSet(s);
      keys := SortedOf(keys);
      SetListDistinct(keys, s);
    }

    /** clearKeywords */
    method ClearKeywords()
      requires Valid()
      modifies this
      ensures Valid()
      ensures keys == []
      ensures field == old(field) && mode == old(mode) && pending == old(pending)
    {
      keys := [];
    }

    /** JqDocumentFilter.remove: a deletion of `length` chars at `offset`. */
    method Remove(offset: nat, length: nat)
      requires Valid()
      modifies this
      ensures Valid()
      ensures field == FilterRemove(old(field), offset, length)
      ensures mode == old(mode) && keys == old(keys) && pending == old(pending)
    {
      MatesTable();
      var len := length;
      var i := 0;
      while i < |Mates|
        invariant 0 <= i <= |Mates| && len == length
        invariant 0 < i ==> GetText(field.text, offset, length + 1).Some?
        invariant forall j :: 0 <= j < i ==> GetText(field.text, offset, length + 1) != Some(Mates[j])
      {
        var piece := GetText(field.text, offset, len + 1);
        if piece.None? {
          // BadLocationException: nothing is removed
          return;
        }
        if piece.value == Mates[i] {
          len := len + 1;
          break;
        }
        i := i + 1;
      }
      if len == length {
        NoMatePieceKeepsLength(field.text, offset, length);
      } else {
        MatePieceWidens(field.text, offset, length, i);
      }
      RemoveRangeValid(field, offset, len);
      field := RemoveRange(field, offset, len);
    }

    /**
     * The document listener's insertUpdate: `length` chars were just inserted
     * at `offset`. It reads the field and may schedule one task or reset the mode.
     */
    method InsertUpdate(offset: nat, length: nat)
      requires Valid()
      modifies this
      ensures Valid()
      ensures field == old(field) && keys == old(keys)
      ensures mode == ModeAfter(old(mode), InsertReaction(field.text, offset, length, keys, Keywords))
      ensures pending == PendingAfter(old(pending), InsertReaction(field.text, offset, length, keys, Keywords))
    {
      if length != 1 {
        return;
      }
      var pos := offset;
      var contentText := GetText(field.text, 0, pos + 1);
      var afterText := GetText(field.text, pos + 1, 1);
      if contentText.None? || afterText.None? {
        // BadLocationException
        return;
      }
      var content := contentText.value;
      var after := afterText.value[0];
      assert content == field.text[..pos + 1];

      // pair handling comes before completion
      var mate := MatesFor(content[pos], after, pos + 1);
      if mate.Some? {
        pending := pending + [mate.value];
        return;
      }

      KeywordsSorted();
      var r := WordLookup(content, keys, Keywords);
      if r.Schedule? {
        pending := pending + [r.task];
      } else if r == ResetMode {
        mode := Insert;
      }
    }

    /**
     * The user types or pastes `s` over the selection: the text field replaces
     * the selection and, when it inserted anything, notifies the listener.
     */
    method TypeText(s: string)
      requires Valid()
      modifies this
      ensures Valid()
      ensures field == ReplaceSelection(old(field), s) && keys == old(keys)
      ensures mode == ModeAfter(old(mode), InsertReaction(field.text, SelectionStart(old(field)), |s|, keys, Keywords))
      ensures pending == PendingAfter(old(pending), InsertReaction(field.text, SelectionStart(old(field)), |s|, keys, Keywords))
    {
      var offset := SelectionStart(field);
      ReplaceSelectionValid(field, s);
      field := ReplaceSelection(field, s);
      if |s| > 0 {
        InsertUpdate(offset, |s|);
      }
    }

    /** CommitAction.actionPerformed, bound to TAB. */
    method Commit()
      requires Valid()
      modifies this
      ensures Valid()
      ensures (field, mode) == CommitEffect(old(field), old(mode))
      ensures keys == old(keys)
      ensures pending == PendingAfter(old(pending), CommitReaction(old(field), old(mode), keys))
    {
      if mode == Completion {
        var pos := SelectionEnd(field);
        var completion := SelectedText(field);
        var sb := field.text;
        field := SetText(sb);
        // setText notifies the listener of the whole text inserted at 0
        InsertUpdate(0, |sb|);
        if completion.Some? && completion.value[|completion.value| - 1] == ')' {
          field := SetCaretPosition(field, pos - 1);
        } else {
          field := SetCaretPosition(field, pos);
        }
        mode := Insert;
      } else {
        TabIsInert(ReplaceSelection(field, "\t").text, SelectionStart(field), keys, Keywords);
        TypeText("\t");
      }
    }

    /** The event loop runs the oldest pending task, if any. */
    method RunNextTask()
      requires Valid()
      modifies this
      ensures Valid()
      ensures keys == old(keys)
      ensures old(pending) == [] ==> field == old(field) && mode == old(mode) && pending == []
      ensures old(pending) != [] ==>
                var t := old(pending)[0];
                var r := TaskReaction(old(field), t, keys);
                field == TaskEffect(old(field), old(mode), t).0 &&
                mode == (if t.CompletionTask? then TaskEffect(old(field), old(mode), t).1 else ModeAfter(old(mode), r)) &&
                pending == PendingAfter(old(pending)[1..], r)
    {
      if pending == [] {
        return;
      }
      var task := pending[0];
      pending := pending[1..];
      match task
      case MatesTask(mate, position) =>
        var sb := field.text;
        if mate != NoMate {
          if position > |sb| {
            // StringBuffer.insert throws
            return;
          }
          sb := sb[..position] + [mate] + sb[position..];
        } else {
          if position >= |sb| {
            // StringBuffer.deleteCharAt throws
            return;
          }
          sb := sb[..position] + sb[position + 1..];
        }
        field := SetText(sb);
        InsertUpdate(0, |sb|);
        field := SetCaretPosition(field, position);
      case CompletionTask(completion, position) =>
        var sb := field.text;
        if position > |sb| {
          return;
        }
        sb := sb[..position] + completion + sb[position..];
        field := SetText(sb);
        InsertUpdate(0, |sb|);
        field := SetCaretPosition(field, position + |completion|);
        field := MoveCaretPosition(field, position);
        mode := Completion;
    }
  }

  lemma NoMatePieceKeepsLength(text: string, offset: nat, length: nat)
    requires offset + length <= |text|
    requires forall j :: 0 <= j < |Mates| ==> GetText(text, offset, length + 1) != Some(Mates[j])
    ensures RemovalLength(text, offset, length) == Some(length)
  {
    if length == 1 && offset + 2 <= |text| {
      assert (text + [EndOfContent])[offset..offset + 2] == text[offset..offset + 2];
    }
  }

  lemma MatePieceWidens(text: string, offset: nat, length: nat, i: nat)
    requires i < |Mates| && GetText(text, offset, length + 1) == Some(Mates[i])
    ensures offset + length + 1 <= |text|
    ensures RemovalLength(text, offset, length) == Some(length + 1)
  {
    MatesTable();
    var content := text + [EndOfContent];
    assert content[offset..offset + length + 1] == Mates[i];
    assert length == 1;
    assert text[offset..offset + 2] == content[offset..offset + 2];
  }
}
