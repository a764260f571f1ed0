/**
 * The jq tab's filtering step: the filter string built from the bar text and
 * the helper check boxes, the output text assembled from the rendered
 * results, and the colour the bar takes. Running the query is jq's business
 * and comes in as a function from the filter string to its outcome.
 */
module JqFilters {
  import opened Options

  // ---------------------------------------------------------------------
  // String.trim

  /** A char String.trim strips: every char up to and including the space. */
  predicate IsBlank(c: char)
  {
    c <= ' '
  }

  /** Where String.trim's result starts: after the leading blanks. */
  function TrimStart(s: string): (i: nat)
    ensures i <= |s|
    ensures forall k :: 0 <= k < i ==> IsBlank(s[k])
    ensures i < |s| ==> !IsBlank(s[i])
    decreases |s|
  {
    if |s| > 0 && IsBlank(s[0]) then 1 + TrimStart(s[1..]) else 0
  }

  /** Where String.trim's result ends: before the trailing blanks at or after `lo`. */
  function TrimEnd(s: string, lo: nat): (j: nat)
    requires lo <= |s|
    ensures lo <= j <= |s|
    ensures forall k :: j <= k < |s| ==> IsBlank(s[k])
    ensures lo < j ==> !IsBlank(s[j - 1])
    decreases |s|
  {
    if |s| > lo && IsBlank(s[|s| - 1]) then TrimEnd(s[..|s| - 1], lo) else |s|
  }

  function Trim(s: string): string
  {
    var i := TrimStart(s);
    s[i..TrimEnd(s, i)]
  }

  /**
   * The trimmed text is a slice of the text that neither starts nor ends with
   * a blank, and only blanks lie outside it; it is empty exactly when the
   * text is all blanks.
   */
  lemma TrimSlice(s: string)
    ensures exists i, j :: 0 <= i <= j <= |s| && Trim(s) == s[i..j] &&
              (forall k :: 0 <= k < i ==> IsBlank(s[k])) &&
              (forall k :: j <= k < |s| ==> IsBlank(s[k]))
    ensures |Trim(s)| > 0 ==> !IsBlank(Trim(s)[0]) && !IsBlank(Trim(s)[|Trim(s)| - 1])
    ensures Trim(s) == [] <==> forall k :: 0 <= k < |s| ==> IsBlank(s[k])
  {
    var i := TrimStart(s);
    var j := TrimEnd(s, i);
    assert Trim(s) == s[i..j];
  }

  /** Trimming twice is trimming once. */
  lemma TrimIdempotent(s: string)
    ensures Trim(Trim(s)) == Trim(s)
  {
    var t := Trim(s);
    TrimSlice(s);
    if |t| > 0 {
      assert TrimStart(t) == 0;
      assert TrimEnd(t, 0) == |t|;
      assert t[0..|t|] == t;
    }
  }

  // ---------------------------------------------------------------------
  // The filter string

  /** The four helper check boxes that rewrite the filter. */
  datatype Helpers = Helpers(keys: bool, filterOutNulls: bool, sort: bool, unique: bool)

  /** The user's filter: the trimmed bar text, or the identity "." when that is empty. */
  function BaseFilter(bar: string): string
  {
    if Trim(bar) == [] then "." else Trim(bar)
  }

  /** The pipes appended to the base filter, "|keys" first. */
  function Pipes(h: Helpers): string
  {
    (if h.keys then "|keys" else "") + (if h.filterOutNulls then "|select(.!=null)" else "")
  }

  /** The opening and the closing of the one wrapping applied, if any; Unique wins over Sort. */
  function Wrapping(h: Helpers): (string, string)
  {
    if h.unique then ("[", "]|unique|.[]")
    else if h.sort then ("[", "]|sort|.[]")
    else ("", "")
  }

  /** The filter handed to jq. */
  function Query(bar: string, h: Helpers): string
  {
    Wrapping(h).0 + (BaseFilter(bar) + Pipes(h)) + Wrapping(h).1
  }

  /** The helper block of applyFilters: the filter string rewritten flag by flag. */
  method BuildQuery(bar: string, h: Helpers) returns (filters: string)
    ensures filters == Query(bar, h)
  {
    filters := PipedFilter(bar, h);
    if h.sort && !h.unique {
      filters := "[" + filters + "]|sort|.[]";
    }
    if h.unique {
      filters := "[" + filters + "]|unique|.[]";
    }
  }

  /** The first steps of the helper block: the base filter and the pipes. */
  method PipedFilter(bar: string, h: Helpers) returns (filters: string)
    ensures filters == BaseFilter(bar) + Pipes(h)
  {
    filters := Trim(bar);
    if filters == "" {
      filters := ".";
    }
    ghost var base := filters;
    if h.keys {
      filters := filters + "|keys";
    }
    assert filters == base + (if h.keys then "|keys" else "");
    if h.filterOutNulls {
      filters := filters + "|select(.!=null)";
    }
  }

  /** With every helper off, jq gets the trimmed bar text, or "." for a blank bar. */
  lemma NoHelpersQuery(bar: string)
    ensures Query(bar, Helpers(false, false, false, false)) == BaseFilter(bar)
    ensures Query(bar, Helpers(false, false, false, false)) == "." <==>
              (forall k :: 0 <= k < |bar| ==> IsBlank(bar[k])) || Trim(bar) == "."
  {
    var h := Helpers(false, false, false, false);
    assert Pipes(h) == [] && Wrapping(h) == ([], []);
    assert Query(bar, h) == BaseFilter(bar);
    TrimSlice(bar);
  }

  /** Both pipes on: the keys are taken before the nulls are filtered out. */
  lemma PipeOrder(bar: string, sort: bool, unique: bool)
    ensures Query(bar, Helpers(true, true, sort, unique)) ==
              Wrapping(Helpers(true, true, sort, unique)).0 + (BaseFilter(bar) + "|keys|select(.!=null)")
              + Wrapping(Helpers(true, true, sort, unique)).1
  {
    assert Pipes(Helpers(true, true, sort, unique)) == "|keys|select(.!=null)";
  }

  /**
   * At most one wrapping: Unique makes Sort irrelevant, and the piped filter
   * is wrapped once, in brackets, exactly when Sort or Unique is on.
   */
  lemma OneWrapping(bar: string, h: Helpers)
    ensures h.unique ==> Query(bar, h) == Query(bar, h.(sort := !h.sort))
    ensures h.unique ==> Query(bar, h) == "[" + (BaseFilter(bar) + Pipes(h)) + "]|unique|.[]"
    ensures h.sort && !h.unique ==> Query(bar, h) == "[" + (BaseFilter(bar) + Pipes(h)) + "]|sort|.[]"
    ensures !h.sort && !h.unique ==> Query(bar, h) == BaseFilter(bar) + Pipes(h)
  {
    var piped := BaseFilter(bar) + Pipes(h);
    if h.unique {
      assert Wrapping(h) == ("[", "]|unique|.[]");
      assert Pipes(h.(sort := !h.sort)) == Pipes(h);
      assert Wrapping(h.(sort := !h.sort)) == Wrapping(h);
    } else if h.sort {
      assert Wrapping(h) == ("[", "]|sort|.[]");
    } else {
      assert Wrapping(h) == ("", "");
      assert "" + piped + "" == piped;
    }
  }

  // ---------------------------------------------------------------------
  // The output text

  /** The rendered results, each followed by "\n" (the StringBuilder before the last char goes). */
  function Terminated(lines: seq<string>): string
  {
    if |lines| == 0 then "" else Terminated(lines[..|lines| - 1]) + lines[|lines| - 1] + "\n"
  }

  /** The rendered results separated by single newlines. */
  function JoinLines(lines: seq<string>): string
  {
    if |lines| == 0 then ""
    else if |lines| == 1 then lines[0]
    else lines[0] + "\n" + JoinLines(lines[1..])
  }

  lemma {:induction false} JoinLinesSnoc(lines: seq<string>, x: string)
    requires |lines| > 0
    ensures JoinLines(lines + [x]) == JoinLines(lines) + "\n" + x
    decreases |lines|
  {
    if |lines| > 1 {
      assert (lines + [x])[1..] == lines[1..] + [x];
      JoinLinesSnoc(lines[1..], x);
    } else {
      assert (lines + [x])[1..] == [x];
    }
  }

  /** Dropping the final "\n" of the terminated text gives the joined text. */
  lemma {:induction false} TerminatedIsJoined(lines: seq<string>)
    requires |lines| > 0
    ensures Terminated(lines) == JoinLines(lines) + "\n"
    decreases |lines|
  {
    var init := lines[..|lines| - 1];
    var last := lines[|lines| - 1];
    if |lines| > 1 {
      TerminatedIsJoined(init);
      JoinLinesSnoc(init, last);
      assert init + [last] == lines;
    }
  }

  /** The pieces of a text between its newlines; "" is one empty piece. */
  function SplitLines(s: string): (r: seq<string>)
    ensures |r| > 0
    decreases |s|
  {
    if |s| == 0 then [""]
    else if s[0] == '\n' then [""] + SplitLines(s[1..])
    else
      var rest := SplitLines(s[1..]);
      [[s[0]] + rest[0]] + rest[1..]
  }

  lemma {:induction false} SplitNoNewline(a: string)
    requires '\n' !in a
    ensures SplitLines(a) == [a]
    decreases |a|
  {
    if |a| > 0 {
      SplitNoNewline(a[1..]);
      assert [a[0]] + a[1..] == a;
    }
  }

  lemma {:induction false} SplitAtNewline(a: string, rest: string)
    requires '\n' !in a
    ensures SplitLines(a + "\n" + rest) == [a] + SplitLines(rest)
    decreases |a|
  {
    var s := a + "\n" + rest;
    if |a| == 0 {
      assert s[1..] == rest;
    } else {
      assert s[1..] == a[1..] + "\n" + rest;
      SplitAtNewline(a[1..], rest);
      assert [a[0]] + a[1..] == a;
    }
  }

  /**
   * When no rendered result holds a newline (raw or compact output), the
   * output splits back into exactly the results.
   */
  lemma {:induction false} SplitJoin(lines: seq<string>)
    requires |lines| > 0
    requires forall i :: 0 <= i < |lines| ==> '\n' !in lines[i]
    ensures SplitLines(JoinLines(lines)) == lines
    decreases |lines|
  {
    if |lines| == 1 {
      SplitNoNewline(lines[0]);
    } else {
      SplitJoin(lines[1..]);
      SplitAtNewline(lines[0], JoinLines(lines[1..]));
    }
  }

  /** The output holds one newline fewer than results, or nothing at all. */
  lemma {:induction false} JoinLength(lines: seq<string>)
    ensures |lines| == 0 ==> JoinLines(lines) == ""
    ensures |lines| > 0 ==> |JoinLines(lines)| == |lines| - 1 + SumLengths(lines)
    decreases |lines|
  {
    if |lines| > 1 {
      JoinLength(lines[1..]);
    }
  }

  function SumLengths(lines: seq<string>): nat
  {
    if |lines| == 0 then 0 else |lines[0]| + SumLengths(lines[1..])
  }

  // ---------------------------------------------------------------------
  // One result of the query and its rendering

  /**
   * What jq hands back for one result: whether it is JSON null, whether it is
   * a string and its text, Jackson's serialisation (None when that throws),
   * its pretty-printed and its compact form.
   */
  datatype Output = Output(isNull: bool, isTextual: bool, text: string,
                           written: Option<string>, prettyString: string, compact: string)

  /** The check boxes that choose how a result is drawn. */
  datatype Display = Display(raw: bool, pretty: bool)

  /** A string result is drawn raw when asked; otherwise pretty (with a fallback) or compact. */
  function Render(o: Output, d: Display): string
  {
    if o.isTextual && d.raw then o.text
    else if d.pretty then
      match o.written
      case Some(w) => w
      case None => o.prettyString
    else o.compact
  }

  /**
   * What the two check boxes promise beyond the branches: Raw acts on string
   * results only, and a string drawn raw ignores Pretty.
   */
  lemma RenderFlags(o: Output, d: Display)
    ensures !o.isTextual ==> Render(o, d) == Render(o, d.(raw := !d.raw))
    ensures o.isTextual && d.raw ==> Render(o, d) == Render(o, d.(pretty := !d.pretty))
    ensures o.isTextual && d.raw ==> Render(o, d) == o.text
  {
  }

  function RenderAll(outs: seq<Output>, d: Display): (r: seq<string>)
    ensures |r| == |outs|
    ensures forall i :: 0 <= i < |outs| ==> r[i] == Render(outs[i], d)
  {
    if |outs| == 0 then [] else RenderAll(outs[..|outs| - 1], d) + [Render(outs[|outs| - 1], d)]
  }

  /**
   * The result callback over all results, then the removal of the extra
   * newline: the output text and whether every result was null.
   */
  method Collect(outs: seq<Output>, d: Display) returns (output: string, allNulls: bool)
    ensures output == JoinLines(RenderAll(outs, d))
    ensures allNulls <==> forall i :: 0 <= i < |outs| ==> outs[i].isNull
  {
    output := "";
    allNulls := true;
    var i := 0;
    while i < |outs|
      invariant 0 <= i <= |outs|
      invariant output == Terminated(RenderAll(outs[..i], d))
      invariant allNulls <==> forall k :: 0 <= k < i ==> outs[k].isNull
    {
      var out := outs[i];
      if !out.isNull {
        allNulls := false;
      }
      RenderStep(outs, i, d);
      output := output + Render(out, d);
      output := output + "\n";
      i := i + 1;
    }
    assert outs[..i] == outs;
    if |outs| > 0 {
      TerminatedIsJoined(RenderAll(outs, d));
    }
    // every result was followed by a newline; the last one goes
    if |output| > 0 {
      output := output[..|output| - 1];
    }
  }

  lemma RenderStep(outs: seq<Output>, i: nat, d: Display)
    requires i < |outs|
    ensures Terminated(RenderAll(outs[..i + 1], d)) == Terminated(RenderAll(outs[..i], d)) + Render(outs[i], d) + "\n"
  {
    assert outs[..i + 1][..i] == outs[..i];
    var lines := RenderAll(outs[..i], d);
    var x := Render(outs[i], d);
    assert RenderAll(outs[..i + 1], d) == lines + [x];
    assert (lines + [x])[..|lines|] == lines;
  }

  // ---------------------------------------------------------------------
  // The whole step

  datatype Colour = Warning | OK | Error

  /** What jq makes of a filter: its results, or the message of the exception it throws. */
  datatype Outcome = Results(outs: seq<Output>) | Failed(message: string)

  /** The bar's colour after a run: Warning when every result is null (or none came), else OK. */
  function ResultColour(outcome: Outcome): Colour
  {
    match outcome
    case Failed(_) => Error
    case Results(outs) => if forall i :: 0 <= i < |outs| ==> outs[i].isNull then Warning else OK
  }

  /** The output area's text after a run. */
  function ResultText(outcome: Outcome, d: Display): string
  {
    match outcome
    case Failed(m) => m
    case Results(outs) => JoinLines(RenderAll(outs, d))
  }

  /** The filter bar, the check boxes, and what applyFilters draws. */
  class JqTab {
    var bar: string
    var helpers: Helpers
    var display: Display
    var colour: Colour
    var shown: string

    /**
     * A fresh tab: an empty bar in the warning colour, Pretty and Raw ticked,
     * the four query helpers unticked, nothing shown yet.
     */
    constructor ()
      ensures bar == "" && helpers == Helpers(false, false, false, false)
      ensures display == Display(true, true)
      ensures colour == Warning && shown == ""
    {
      bar := "";
      helpers := Helpers(false, false, false, false);
      display := Display(true, true);
      colour := Warning;
      shown := "";
    }

    /** applyFilters, with jq's compile-and-apply passed in as `jq`. */
    method ApplyFilters(jq: string -> Outcome)
      modifies this
      ensures bar == old(bar) && helpers == old(helpers) && display == old(display)
      ensures colour == ResultColour(jq(Query(bar, helpers)))
      ensures shown == ResultText(jq(Query(bar, helpers)), display)
    {
      var filters := BuildQuery(bar, helpers);
      match jq(filters)
      case Failed(message) =>
        colour := Error;
        shown := message;
      case Results(outs) =>
        var output, isAllNulls := Collect(outs, display);
        if isAllNulls {
          colour := Warning;
        } else {
          colour := OK;
        }
        shown := output;
    }
  }

  /** No results: an empty output area and the warning colour. */
  lemma NoResults(d: Display)
    ensures ResultText(Results([]), d) == "" && ResultColour(Results([])) == Warning
  {
  }
}
