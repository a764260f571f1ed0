/**
 * What the completion controller promises, proved about its specification:
 * how a prefix is resolved against a sorted dictionary, which token a
 * keystroke completes, the net effect of the pair keystrokes, and the
 * completion/commit round.
 */
module JqCompletionProps {
  import opened Options
  import opened Lexicographic
  import opened JavaCollections
  import opened SwingText
  import opened JqKeywords
  import opened JqCompletion

  // ---------------------------------------------------------------------
  // Resolution against a sorted dictionary

  /** An insertion point pinned down by its two neighbours. */
  lemma SplitPoint(list: seq<string>, key: string, ip: nat)
    requires Sorted(list) && ip <= |list|
    requires ip == 0 || Less(list[ip - 1], key)
    requires ip == |list| || Less(key, list[ip])
    ensures key !in list && InsertionPoint(list, key) == ip
  {
    forall i | 0 <= i < ip ensures Less(list[i], key) {
      if i < ip - 1 { LessEqLess(list[i], list[ip - 1], key); }
    }
    forall i | ip <= i < |list| ensures Less(key, list[i]) {
      if ip < i { LessLessEq(key, list[ip], list[i]); }
    }
    forall i | 0 <= i < |list| ensures list[i] != key {
      LessIrreflexive(key);
    }
    InsertionPointSplits(list, key, ip);
  }

  /**
   * A completion is offered exactly when the prefix is not itself an entry
   * and some entry strictly extends it.
   */
  lemma ResolveSchedulesIff(dict: seq<string>, prefix: string, at: nat)
    requires Sorted(dict)
    ensures Resolve(dict, prefix, at).Schedule? <==>
              prefix !in dict &&
              exists i :: 0 <= i < |dict| && StartsWith(dict[i], prefix) && dict[i] != prefix
  {
    var ip := InsertionPoint(dict, prefix);
    if Resolve(dict, prefix, at).Schedule? {
      assert StartsWith(dict[ip], prefix) && dict[ip] != prefix;
    }
    if prefix !in dict && exists i :: 0 <= i < |dict| && StartsWith(dict[i], prefix) && dict[i] != prefix {
      var i :| 0 <= i < |dict| && StartsWith(dict[i], prefix) && dict[i] != prefix;
      ExtensionIsGreater(prefix, dict[i]);
      if i < ip {
        LessAsymmetric(prefix, dict[i]);
      }
      assert dict[ip] != prefix;
      LessTotal(prefix, dict[ip]);
      assert LessEq(dict[ip], dict[i]);
      BetweenExtends(prefix, dict[ip], dict[i]);
    }
  }

  /**
   * The completion offered is not empty, completes the prefix to an entry,
   * and that entry is the smallest one sorting after the prefix.
   */
  lemma CompletionIsNextEntry(dict: seq<string>, prefix: string, at: nat)
    requires Sorted(dict) && Resolve(dict, prefix, at).Schedule?
    ensures Resolve(dict, prefix, at).task.CompletionTask?
    ensures Resolve(dict, prefix, at).task.position == at
    ensures |Resolve(dict, prefix, at).task.completion| > 0
    ensures prefix + Resolve(dict, prefix, at).task.completion in dict
    ensures forall i :: 0 <= i < |dict| && Less(prefix, dict[i]) ==>
              LessEq(prefix + Resolve(dict, prefix, at).task.completion, dict[i])
  {
    var ip := InsertionPoint(dict, prefix);
    var c := dict[ip][|prefix|..];
    assert dict[ip] == prefix + c;
    assert Resolve(dict, prefix, at) == Schedule(CompletionTask(c, at));
    assert dict[ip] != prefix;
    assert |c| > 0;
    forall i | 0 <= i < |dict| && Less(prefix, dict[i]) ensures LessEq(dict[ip], dict[i]) {
      if i < ip {
        LessAsymmetric(prefix, dict[i]);
      }
    }
  }

  /**
   * The mode is reset exactly when the prefix is an entry or every entry
   * sorts before it; a completion is never a pair task.
   */
  lemma ResolveResetsIff(dict: seq<string>, prefix: string, at: nat)
    ensures Resolve(dict, prefix, at) == ResetMode <==>
              prefix in dict || forall i :: 0 <= i < |dict| ==> Less(dict[i], prefix)
    ensures Resolve(dict, prefix, at).Schedule? ==> Resolve(dict, prefix, at).task.CompletionTask?
  {
  }

  // ---------------------------------------------------------------------
  // The token a keystroke completes

  /**
   * No token is looked up exactly when the typed char is not a letter at the
   * start of the field, or not a word char further on.
   */
  lemma {:induction false} TooShortIff(content: string)
    requires |content| > 0
    ensures FindToken(content).TooShort? <==>
              (|content| == 1 && !IsLetter(content[0])) ||
              (|content| > 1 && !IsWordChar(content[|content| - 1]))
  {
    var pos := |content| - 1;
    if pos > 0 && IsWordChar(content[pos]) {
      assert WordStart(content, pos) == WordStart(content, pos - 1);
    }
  }

  /**
   * The token is a non-empty run of word chars ending at the typed char; the
   * char before it is not a word char (except at index 0, where only a
   * letter starts a token); the keys are searched exactly after a '.'.
   */
  lemma TokenIsWord(content: string)
    requires |content| > 0 && FindToken(content).Token?
    ensures FindToken(content).start < |content|
    ensures forall k :: FindToken(content).start <= k < |content| ==> IsWordChar(content[k])
    ensures FindToken(content).start > 1 ==> !IsWordChar(content[FindToken(content).start - 1])
    ensures FindToken(content).start == 0 ==> IsLetter(content[0])
    ensures FindToken(content).start == 1 ==> !IsLetter(content[0])
    ensures FindToken(content).fromKeys <==>
              FindToken(content).start > 0 && content[FindToken(content).start - 1] == '.'
  {
  }

  /**
   * A leading '_' is never part of a token: the scan stops at index 0 without
   * looking at it, and only a letter there extends the token.
   */
  lemma LeadingUnderscoreDropped()
    ensures FindToken("_ab") == Token(false, 1)
  {
    assert WordStart("_ab", 2) == WordStart("_ab", 1) == WordStart("_ab", 0) == 0;
  }

  // ---------------------------------------------------------------------
  // The pair keystrokes

  /** The table's pair of an opener: it is a row of the table, its closer really closes. */
  lemma PairOf(c: char)
    requires IsOpener(c)
    ensures [c, CloserOf(c)] in Mates
    ensures IsCloser(CloserOf(c)) && CloserOf(c) != NoMate && CloserOf(c) != EndOfContent
  {
    MatesTable();
    var i :| 0 <= i < |Mates| && Mates[i][0] == c && Mates[i][1] == CloserOf(c);
    assert Mates[i] == [c, CloserOf(c)];
  }

  lemma TypedText(b: Buffer, c: char)
    requires ValidBuffer(b)
    ensures var t := ReplaceSelection(b, [c]).text;
      SelectionStart(b) < |t| && t[SelectionStart(b)] == c &&
      (t + [EndOfContent])[SelectionStart(b) + 1] == (b.text + [EndOfContent])[SelectionEnd(b)] &&
      t[..SelectionStart(b) + 1] == b.text[..SelectionStart(b)] + [c] &&
      t[SelectionStart(b) + 1..] == b.text[SelectionEnd(b)..]
  {
    var p0 := SelectionStart(b);
    var p1 := SelectionEnd(b);
    var t := ReplaceSelection(b, [c]).text;
    assert t == b.text[..p0] + [c] + b.text[p1..];
    assert (t + [EndOfContent])[p0 + 1..] == (b.text + [EndOfContent])[p1..];
  }

  /**
   * Typing a closer just before the same closer: the one task deletes the old
   * closer, so the text is the old text less the selection and the caret sits
   * after the char; with no selection the text is unchanged and the caret
   * has moved by one.
   */
  lemma SkipCloseNetEffect(b: Buffer, c: char, mode: Mode, keys: seq<string>, keywords: seq<string>)
    requires ValidBuffer(b)
    requires IsCloser(c) && SelectionEnd(b) < |b.text| && b.text[SelectionEnd(b)] == c
    ensures InsertReaction(ReplaceSelection(b, [c]).text, SelectionStart(b), 1, keys, keywords)
              == Schedule(MatesTask(NoMate, SelectionStart(b) + 1))
    ensures TaskEffect(ReplaceSelection(b, [c]), mode, MatesTask(NoMate, SelectionStart(b) + 1))
              == (Buffer(b.text[..SelectionStart(b)] + b.text[SelectionEnd(b)..],
                         SelectionStart(b) + 1, SelectionStart(b) + 1), mode)
    ensures b.dot == b.mark ==>
              TaskEffect(ReplaceSelection(b, [c]), mode, MatesTask(NoMate, b.dot + 1))
                == (Buffer(b.text, b.dot + 1, b.dot + 1), mode)
  {
    var p0 := SelectionStart(b);
    var p1 := SelectionEnd(b);
    var t := ReplaceSelection(b, [c]).text;
    TypedText(b, c);
    ReplaceSelectionValid(b, [c]);
    assert p0 + 1 < |t|;
    assert t[p0 + 2..] == t[p0 + 1..][1..] == b.text[p1 + 1..];
    assert t[..p0 + 1] + t[p0 + 2..] == b.text[..p0] + [c] + b.text[p1 + 1..];
    assert b.text[p1..] == [c] + b.text[p1 + 1..];
    assert t[..p0 + 1] + t[p0 + 2..] == b.text[..p0] + b.text[p1..];
    if b.dot == b.mark {
      assert b.text == b.text[..p0] + b.text[p1..];
    }
  }

  /**
   * The skip-close task's own setText, when it leaves a single char, runs the
   * listener again. A quote also opens, so `"` typed before a lone `"` gets
   * paired once more and ends as `""`, after which nothing further happens;
   * a `)` that does not open gives no second round.
   */
  lemma SkipCloseRefire(keys: seq<string>)
    ensures TaskReaction(Buffer("\"\"", 1, 1), MatesTask(NoMate, 1), keys) == Schedule(MatesTask('"', 1))
    ensures TaskReaction(Buffer("\"", 1, 1), MatesTask('"', 1), keys) == NoChange
    ensures TaskReaction(Buffer("))", 1, 1), MatesTask(NoMate, 1), keys) == NoChange
  {
    MateChars('"');
    MateChars(')');
    MatesTable();
    assert Mates[4] == "\"\"";
    assert CloserOf('"') == '"';
    assert "\""[..1] == "\"" && ")"[..1] == ")";
    assert ("\"" + [EndOfContent])[1] == '\n';
    assert (")" + [EndOfContent])[1] == '\n';
    assert WordStart(")", 0) == 0;
  }

  /**
   * Typing an opener, not just before the same closing char: the one task
   * inserts its closer behind it and leaves the caret between the two; the
   * mode is untouched.
   */
  lemma AutoPairNetEffect(b: Buffer, c: char, mode: Mode, keys: seq<string>, keywords: seq<string>)
    requires ValidBuffer(b) && IsOpener(c)
    requires !(IsCloser(c) && (b.text + [EndOfContent])[SelectionEnd(b)] == c)
    ensures InsertReaction(ReplaceSelection(b, [c]).text, SelectionStart(b), 1, keys, keywords)
              == Schedule(MatesTask(CloserOf(c), SelectionStart(b) + 1))
    ensures TaskEffect(ReplaceSelection(b, [c]), mode, MatesTask(CloserOf(c), SelectionStart(b) + 1))
              == (Buffer(b.text[..SelectionStart(b)] + [c, CloserOf(c)] + b.text[SelectionEnd(b)..],
                         SelectionStart(b) + 1, SelectionStart(b) + 1), mode)
  {
    var p0 := SelectionStart(b);
    var t := ReplaceSelection(b, [c]).text;
    TypedText(b, c);
    PairOf(c);
    assert t[..p0 + 1] + [CloserOf(c)] + t[p0 + 1..]
        == b.text[..p0] + [c, CloserOf(c)] + b.text[SelectionEnd(b)..];
  }

  /** Deleting the opener of an empty pair removes the pair: auto-pairing undone. */
  lemma DeletePairRestores(text: string, p: nat, c: char)
    requires p <= |text| && IsOpener(c)
    ensures FilterRemove(Buffer(text[..p] + [c, CloserOf(c)] + text[p..], p + 1, p + 1), p, 1)
              == Buffer(text, p, p)
  {
    var t := text[..p] + [c, CloserOf(c)] + text[p..];
    PairOf(c);
    assert t[p..p + 2] == [c, CloserOf(c)];
    assert t[..p] + t[p + 2..] == text;
  }

  /** Typing the closer inside a fresh pair steps over it. */
  lemma CloseFreshPair(text: string, p: nat, c: char, mode: Mode, keys: seq<string>, keywords: seq<string>)
    requires p <= |text| && IsOpener(c)
    ensures var b := Buffer(text[..p] + [c, CloserOf(c)] + text[p..], p + 1, p + 1);
      TaskEffect(ReplaceSelection(b, [CloserOf(c)]), mode, MatesTask(NoMate, p + 2))
        == (Buffer(b.text, p + 2, p + 2), mode) &&
      InsertReaction(ReplaceSelection(b, [CloserOf(c)]).text, p + 1, 1, keys, keywords)
        == Schedule(MatesTask(NoMate, p + 2))
  {
    PairOf(c);
    var b := Buffer(text[..p] + [c, CloserOf(c)] + text[p..], p + 1, p + 1);
    assert b.text[p + 1] == CloserOf(c);
    SkipCloseNetEffect(b, CloserOf(c), mode, keys, keywords);
  }

  /** Typing '(' into the empty field, with the implied newline as the next char. */
  lemma EmptyFieldParenExample(keys: seq<string>)
    ensures InsertReaction("(", 0, 1, keys, Keywords) == Schedule(MatesTask(')', 1))
    ensures TaskEffect(ReplaceSelection(Buffer([], 0, 0), "("), Insert, MatesTask(')', 1))
              == (Buffer("()", 1, 1), Insert)
  {
    MateChars('(');
    MateChars(')');
    MatesTable();
    assert Mates[0] == "()";
    assert CloserOf('(') == ')';
    AutoPairNetEffect(Buffer([], 0, 0), '(', Insert, keys, Keywords);
    assert ReplaceSelection(Buffer([], 0, 0), "(") == Buffer("(", 1, 1);
    assert [] + ['(', ')'] + [] == "()";
  }

  // ---------------------------------------------------------------------
  // Completion and commit

  /**
   * A completion task inserts the completion and selects it; committing then
   * keeps the text, leaves the caret at the end of the completion (one before
   * it when it ends in ')') and returns to insert mode, where a second commit
   * types a TAB at the caret.
   */
  lemma CompletionThenCommit(b: Buffer, mode: Mode, s: string, p: nat)
    requires ValidBuffer(b) && p <= |b.text| && |s| > 0
    ensures var (b1, m1) := TaskEffect(b, mode, CompletionTask(s, p));
      b1.text == b.text[..p] + s + b.text[p..] && m1 == Completion &&
      ValidBuffer(b1) && SelectedText(b1) == Some(s) && b1.dot == p
    ensures var (b1, m1) := TaskEffect(b, mode, CompletionTask(s, p));
      var q := if s[|s| - 1] == ')' then p + |s| - 1 else p + |s|;
      CommitEffect(b1, m1) == (Buffer(b1.text, q, q), Insert) &&
      CommitEffect(Buffer(b1.text, q, q), Insert)
        == (Buffer(b1.text[..q] + "\t" + b1.text[q..], q + 1, q + 1), Insert)
  {
    var t := b.text[..p] + s + b.text[p..];
    assert t[p..p + |s|] == s;
  }

  /** A completion offered by the listener is never empty, so it is always selected. */
  lemma OfferedCompletionSelected(dict: seq<string>, prefix: string, b: Buffer, mode: Mode)
    requires Sorted(dict) && ValidBuffer(b)
    requires Resolve(dict, prefix, |b.text|).Schedule?
    ensures var t := Resolve(dict, prefix, |b.text|).task;
      SelectedText(TaskEffect(b, mode, t).0) == Some(t.completion)
  {
    CompletionIsNextEntry(dict, prefix, |b.text|);
    var t := Resolve(dict, prefix, |b.text|).task;
    CompletionThenCommit(b, mode, t.completion, |b.text|);
  }

  /**
   * The setText of an accepted completion is heard by the listener, but it
   * can only react when the field holds exactly one char.
   */
  lemma CommitRefireNeedsOneChar(b: Buffer, mode: Mode, keys: seq<string>)
    requires |b.text| != 1
    ensures CommitReaction(b, mode, keys) == NoChange
  {
  }

  /** Accepting a completion in a field holding only `(` pairs it once more. */
  lemma CommitRefireParenExample(b: Buffer, keys: seq<string>)
    requires b.text == "("
    ensures CommitReaction(b, Completion, keys) == Schedule(MatesTask(')', 1))
  {
    MateChars('(');
    MatesTable();
    assert Mates[0] == "()";
    assert CloserOf('(') == ')';
    assert ("(" + [EndOfContent])[1] == '\n';
  }

  /** Accepting a completion in a field holding only `s` offers `calars` once more. */
  lemma CommitRefireLetterExample(b: Buffer, keys: seq<string>)
    requires b.text == "s"
    ensures CommitReaction(b, Completion, keys) == Schedule(CompletionTask("calars", 1))
  {
    MateChars('s');
    assert "s"[..1] == "s";
    assert MateReaction('s', ("s" + [EndOfContent])[1], 1) == None;
    LetterWordReaction(keys);
  }

  lemma LetterWordReaction(keys: seq<string>)
    ensures WordReaction("s", keys, Keywords) == Schedule(CompletionTask("calars", 1))
  {
    assert WordStart("s", 0) == 0;
    assert FindToken("s") == Token(false, 0);
    assert "s"[0..] == "s";
    SResolves();
  }

  lemma SResolves()
    ensures Resolve(Keywords, "s", 1) == Schedule(CompletionTask("calars", 1))
  {
    var rtrimstr := Keywords[59];
    var scalars := Keywords[60];
    assert rtrimstr == "rtrimstr()" && scalars == "scalars";
    KeywordsSorted();
    LessAt(rtrimstr, "s", 0);
    ExtensionIsGreater("s", scalars);
    SplitPoint(Keywords, "s", 60);
    assert scalars[1..] == "calars";
  }

  // ---------------------------------------------------------------------
  // Worked examples

  /** "sel" completes to "select()": "scalars" < "sel" < "select()". */
  lemma KeywordCompletionExample(keys: seq<string>)
    ensures WordReaction("sel", keys, Keywords) == Schedule(CompletionTask("ect()", 3))
  {
    assert WordStart("sel", 2) == 0;
    assert FindToken("sel") == Token(false, 0);
    assert "sel"[0..] == "sel";
    SelResolves();
  }

  lemma SelResolves()
    ensures Resolve(Keywords, "sel", 3) == Schedule(CompletionTask("ect()", 3))
  {
    var scalars := Keywords[60];
    var select := Keywords[61];
    assert scalars == "scalars" && select == "select()";
    KeywordsSorted();
    LessAt(scalars, "sel", 1);
    ExtensionIsGreater("sel", select);
    SplitPoint(Keywords, "sel", 61);
    assert select[3..] == "ect()";
  }

  /** ".na" with the JSON keys "id" and "name" completes to "name". */
  lemma KeyCompletionExample()
    ensures WordReaction(".na", ["id", "name"], Keywords) == Schedule(CompletionTask("me", 3))
  {
    var keys := ["id", "name"];
    assert WordStart(".na", 2) == 0;
    assert ".na"[1..] == "na";
    LessAt(keys[0], "na", 0);
    ExtensionIsGreater("na", keys[1]);
    assert Sorted(keys) by { LessAt(keys[0], keys[1], 0); }
    SplitPoint(keys, "na", 1);
    assert keys[1][|"na"|..] == "me";
    assert Resolve(keys, "na", 3) == Schedule(CompletionTask("me", 3));
    assert FindToken(".na") == Token(true, 1);
  }

  /** A word sorting after every keyword resets the mode. */
  lemma PastLastKeywordExample(keys: seq<string>)
    ensures WordReaction("xyz", keys, Keywords) == ResetMode
  {
    KeywordsSorted();
    assert WordStart("xyz", 2) == 0;
    LessAt(Keywords[81], "xyz", 0);
    SplitPoint(Keywords, "xyz", 82);
  }

  /** A keyword typed out in full resets the mode and offers nothing. */
  lemma ExactKeywordExample(keys: seq<string>)
    ensures WordReaction("keys", keys, Keywords) == ResetMode
  {
    assert WordStart("keys", 3) == 0;
    assert FindToken("keys") == Token(false, 0);
    assert Keywords[36] == "keys";
  }
}
