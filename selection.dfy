/** How the `SCRAPERS` environment variable becomes the ordered list of
    scraper names to run (index.js, lines 4 to 19). */
module Selection {
  import opened Common
  import opened JsStrings

  /** The sentinel directive that selects every registered scraper. */
  const All: string := "*"

  /** `process.env.SCRAPERS || '*'`: an unset variable (`None`) and the empty
      string are both falsy and fall back to the sentinel. */
  function Directive(env: Option<string>): (d: string)
    ensures d != ""
    ensures d == All <==> env == None || env == Some("") || env == Some(All)
    ensures env.Some? && env.value != "" ==> d == env.value
  {
    if env.None? || env.value == "" then All else env.value
  }

  /** `pieces.map(s => s.trim())`. */
  function TrimAll(pieces: seq<string>): (r: seq<string>)
    ensures |r| == |pieces|
    ensures forall i :: 0 <= i < |r| ==> r[i] == Trim(pieces[i])
  {
    if pieces == [] then [] else [Trim(pieces[0])] + TrimAll(pieces[1..])
  }

  /** The execution plan for a directive: the registry's own key order for the
      exact sentinel, otherwise the comma-separated pieces, each trimmed. */
  function ParsePlan(directive: string, keys: seq<string>): (plan: seq<string>)
    ensures directive == All ==> plan == keys
    ensures directive != All ==> |plan| == Count(directive, ',') + 1
    ensures directive != All ==> forall i :: 0 <= i < |plan| ==> plan[i] == Trim(Split(directive, ',')[i])
  {
    if directive == All then keys else TrimAll(Split(directive, ','))
  }

  /** Every entry of a comma-list plan is a comma-free name with no whitespace
      at either end. */
  lemma PlanEntriesAreClean(directive: string, keys: seq<string>, i: int)
    requires directive != All
    requires 0 <= i < |ParsePlan(directive, keys)|
    ensures ',' !in ParsePlan(directive, keys)[i]
    ensures Trim(ParsePlan(directive, keys)[i]) == ParsePlan(directive, keys)[i]
  {
    var piece := Split(directive, ',')[i];
    TrimKeepsAbsent(piece, ',');
    TrimIdempotent(piece);
  }

  /** The whole of index.js lines 4 to 19: environment value in, plan out. */
  function SelectPlan(env: Option<string>, keys: seq<string>): (plan: seq<string>)
    ensures env == None || env == Some("") || env == Some(All) ==> plan == keys
    ensures env.Some? && env.value != "" && env.value != All ==>
      |plan| == Count(env.value, ',') + 1
      && forall i :: 0 <= i < |plan| ==> plan[i] == Trim(Split(env.value, ',')[i])
  {
    ParsePlan(Directive(env), keys)
  }

  /** An unset or empty `SCRAPERS` runs exactly what `'*'` runs: every
      registry key, in registry order. */
  lemma UnsetOrEmptyMeansAll(keys: seq<string>)
    ensures SelectPlan(None, keys) == keys
    ensures SelectPlan(Some(""), keys) == keys
    ensures SelectPlan(Some(All), keys) == keys
  {
  }

  /** For any directive other than the sentinel, the plan is the list of trimmed
      pieces of ANY cutting of the directive into comma-free pieces that joins
      back to it: order, duplicates and empty pieces are all kept. */
  lemma {:induction false} PlanIsTrimmedPieces(directive: string, keys: seq<string>, pieces: seq<string>)
    requires directive != All
    requires |pieces| >= 1 && Join(pieces, ',') == directive
    requires forall i :: 0 <= i < |pieces| ==> ',' !in pieces[i]
    ensures ParsePlan(directive, keys) == TrimAll(pieces)
    ensures |ParsePlan(directive, keys)| == |pieces|
  {
    SplitJoin(pieces, ',');
  }

  /** Conversely, the pieces the plan is made of rebuild the directive. */
  lemma PlanPiecesRebuildDirective(directive: string, keys: seq<string>)
    requires directive != All
    ensures exists pieces: seq<string> ::
      && |pieces| >= 1 && Join(pieces, ',') == directive
      && (forall i :: 0 <= i < |pieces| ==> ',' !in pieces[i])
      && ParsePlan(directive, keys) == TrimAll(pieces)
  {
    JoinSplit(directive, ',');
    var pieces := Split(directive, ',');
    assert ParsePlan(directive, keys) == TrimAll(pieces);
  }

  /** The sentinel is recognised only verbatim: `" * "` is trimmed to the
      ordinary name `"*"`, not expanded to the registry. */
  lemma PaddedSentinelIsAName(keys: seq<string>)
    ensures SelectPlan(Some(" * "), keys) == ["*"]
  {
    var d := " * ";
    assert ',' !in d;
    SplitNoSeparator(d, ',');
    TrimPadded("*");
  }

  /** `"a, b ,c"` gives `["a", "b", "c"]`. */
  lemma CommaListExample(keys: seq<string>)
    ensures SelectPlan(Some("a, b ,c"), keys) == ["a", "b", "c"]
  {
    var pieces := ["a", " b ", "c"];
    assert SelectPlan(Some("a, b ,c"), keys) == TrimAll(pieces) by {
      assert Join(pieces[2..], ',') == "c";
      assert Join(pieces[1..], ',') == " b ,c";
      assert Join(pieces, ',') == "a, b ,c";
      PlanIsTrimmedPieces("a, b ,c", keys, pieces);
    }
    assert TrimAll(pieces) == ["a", "b", "c"] by {
      TrimOfBare("a");
      TrimOfBare("c");
      TrimPadded("b");
      assert [' '] + "b" + [' '] == " b ";
    }
  }

  /** Duplicates and empty pieces survive: `"x,,x"` gives `["x", "", "x"]`. */
  lemma DuplicatesAndEmptiesKept(keys: seq<string>)
    ensures SelectPlan(Some("x,,x"), keys) == ["x", "", "x"]
  {
    var pieces := ["x", "", "x"];
    assert SelectPlan(Some("x,,x"), keys) == TrimAll(pieces) by {
      assert Join(pieces[1..], ',') == ",x";
      assert Join(pieces, ',') == "x,,x";
      PlanIsTrimmedPieces("x,,x", keys, pieces);
    }
    assert TrimAll(pieces) == ["x", "", "x"] by {
      TrimOfBare("x");
      TrimOfBare("");
    }
  }

  /** One space on each side of a one-word name is trimmed away. */
  lemma TrimPadded(w: string)
    requires w != [] && !IsJsWhitespace(w[0]) && !IsJsWhitespace(w[|w| - 1])
    ensures Trim([' '] + w + [' ']) == w
  {
    var s := [' '] + w + [' '];
    assert s[1..|s| - 1] == w && TrimmedAt(s, 1, |s| - 1);
    TrimUnique(w, s);
  }

  /** A string with no whitespace at either end is its own trim. */
  lemma TrimOfBare(s: string)
    requires s != [] ==> !IsJsWhitespace(s[0]) && !IsJsWhitespace(s[|s| - 1])
    ensures Trim(s) == s
  {
    assert s == s[0..|s|] && TrimmedAt(s, 0, |s|);
    TrimUnique(s, s);
  }
}
