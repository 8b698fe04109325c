/**
 * The include-line recogniser: the regular expression
 *   #include\s+(?:"(.*)"|<(.*)>)
 * applied with `match` (anchored at the first character of the line, not at
 * its end), followed by the selection `group(1) or group(2)`.
 */
module IncludeLine {
  import opened Wrappers

  /** What `group(1) or group(2)` yields: a string, or Python's `None`. */
  type Target = Option<string>

  const Keyword: string := "#include"

  /** Python's `\s` on a str pattern: the characters for which `str.isspace()` holds. */
  predicate IsSpace(c: char) {
    var n := c as int;
    || 0x09 <= n <= 0x0D
    || 0x1C <= n <= 0x20
    || n == 0x85 || n == 0xA0 || n == 0x1680
    || 0x2000 <= n <= 0x200A
    || n == 0x2028 || n == 0x2029 || n == 0x202F || n == 0x205F || n == 0x3000
  }

  predicate StartsWithKeyword(line: string) {
    |line| >= |Keyword| && line[..|Keyword|] == Keyword
  }

  function OpenDelim(angled: bool): char { if angled then '<' else '"' }
  function CloseDelim(angled: bool): char { if angled then '>' else '"' }

  /**
   * A way the pattern can match a line: the position of the opening delimiter,
   * the position of the closing one, and which alternative (quote or angle).
   */
  datatype Span = Span(open: nat, close: nat, angled: bool)

  /**
   * Every match the pattern admits, before the regex engine's preferences:
   * the keyword at column 0, a non-empty run of whitespace up to the opening
   * delimiter, then any characters but a newline (`.`) up to the closing one.
   */
  ghost predicate IsMatch(line: string, s: Span) {
    && StartsWithKeyword(line)
    && |Keyword| < s.open < s.close < |line|
    && (forall k :: |Keyword| <= k < s.open ==> IsSpace(line[k]))
    && line[s.open] == OpenDelim(s.angled)
    && line[s.close] == CloseDelim(s.angled)
    && (forall k :: s.open < k < s.close ==> line[k] != '\n')
  }

  /** The end of the greedy `\s+` run that starts at `i`. */
  function SpaceRunEnd(line: string, i: nat): (j: nat)
    requires i <= |line|
    ensures i <= j <= |line|
    ensures forall k :: i <= k < j ==> IsSpace(line[k])
    ensures j < |line| ==> !IsSpace(line[j])
    decreases |line| - i
  {
    if i < |line| && IsSpace(line[i]) then SpaceRunEnd(line, i + 1) else i
  }

  /** The end of the greedy `.*` run that starts at `i`: the next newline, or the end of the line. */
  function DotRunEnd(line: string, i: nat): (j: nat)
    requires i <= |line|
    ensures i <= j <= |line|
    ensures forall k :: i <= k < j ==> line[k] != '\n'
    ensures j < |line| ==> line[j] == '\n'
    decreases |line| - i
  {
    if i < |line| && line[i] != '\n' then DotRunEnd(line, i + 1) else i
  }

  /** Backtracking of a greedy `.*` over `line[lo..hi]`: the last position holding `c`. */
  function LastIndexIn(line: string, c: char, lo: nat, hi: nat): (r: Option<nat>)
    requires lo <= hi <= |line|
    ensures r.Some? ==> lo <= r.value < hi && line[r.value] == c
    ensures r.Some? ==> forall k :: r.value < k < hi ==> line[k] != c
    ensures r.None? ==> forall k :: lo <= k < hi ==> line[k] != c
    decreases hi - lo
  {
    if hi == lo then None
    else if line[hi - 1] == c then Some(hi - 1)
    else LastIndexIn(line, c, lo, hi - 1)
  }

  /** `p_include.match(line)`: the match the engine picks, if any. */
  function MatchInclude(line: string): Option<Span> {
    if !StartsWithKeyword(line) then None
    else
      var j := SpaceRunEnd(line, |Keyword|);
      if j == |Keyword| || j == |line| || (line[j] != '"' && line[j] != '<') then None
      else
        var angled := line[j] == '<';
        match LastIndexIn(line, CloseDelim(angled), j + 1, DotRunEnd(line, j + 1))
        case None => None
        case Some(e) => Some(Span(j, e, angled))
  }

  /** The engine's match is one the pattern admits. */
  lemma MatchIncludeSound(line: string)
    requires MatchInclude(line).Some?
    ensures IsMatch(line, MatchInclude(line).value)
  {
  }

  /**
   * Whenever the pattern admits a match, the engine finds one, with the same
   * opening delimiter and a closing delimiter at least as far (greedy `.*`).
   */
  lemma MatchIncludeBest(line: string, s: Span)
    requires IsMatch(line, s)
    ensures MatchInclude(line).Some?
    ensures var r := MatchInclude(line).value;
            s.open == r.open && s.angled == r.angled && s.close <= r.close
  {
    var j := SpaceRunEnd(line, |Keyword|);
    assert s.open == j;
    assert s.close < DotRunEnd(line, j + 1);
  }

  /** Python's `a or b` on values that are a string or `None`: both `None` and `""` are falsy. */
  function PyOr(a: Option<string>, b: Option<string>): Option<string> {
    if a.Some? && a.value != "" then a else b
  }

  /**
   * The target a line contributes: `None` (outer) when the line does not match,
   * otherwise `group(1) or group(2)`, where group 1 is the quoted name (absent
   * when the angle alternative matched) and group 2 the angled one.
   */
  function Extract(line: string): Option<Target> {
    match MatchInclude(line)
    case None => None
    case Some(s) =>
      var name := line[s.open + 1..s.close];
      var group1 := if s.angled then None else Some(name);
      var group2 := if s.angled then Some(name) else None;
      Some(PyOr(group1, group2))
  }

  /** A line yields something exactly when the pattern admits some match of it. */
  lemma ExtractDefined(line: string)
    ensures Extract(line).None? <==> forall s :: !IsMatch(line, s)
  {
    if Extract(line).Some? {
      MatchIncludeSound(line);
    } else {
      forall s | IsMatch(line, s) ensures false {
        MatchIncludeBest(line, s);
      }
    }
  }

  /**
   * A line yields a target only if it starts exactly with the keyword (no
   * indentation, no other prefix), the keyword is followed by at least one
   * whitespace character, and the first character after that run is `"` or `<`.
   */
  lemma ExtractNeedsDirectiveShape(line: string)
    requires Extract(line).Some?
    ensures StartsWithKeyword(line) && |Keyword| < |line| && IsSpace(line[|Keyword|])
    ensures var j := SpaceRunEnd(line, |Keyword|); j < |line| && (line[j] == '"' || line[j] == '<')
  {
    MatchIncludeSound(line);
    assert IsSpace(line[|Keyword|]);
  }

  /**
   * Whatever match the pattern admits with the furthest closing delimiter
   * decides the target: the text between the delimiters, except that an
   * empty quoted name selects group 2, which is `None`.
   */
  lemma ExtractGreedy(line: string, s: Span)
    requires IsMatch(line, s)
    requires forall e :: s.close < e < |line| ==> !IsMatch(line, s.(close := e))
    ensures Extract(line) == Some(if s.angled || s.open + 1 < s.close then Some(line[s.open + 1..s.close]) else None)
  {
    MatchIncludeBest(line, s);
    MatchIncludeSound(line);
  }

  /** A directive line built from its parts: keyword, whitespace, delimited name, trailing text. */
  function DirectiveLine(ws: string, angled: bool, name: string, tail: string): string {
    Keyword + ws + [OpenDelim(angled)] + name + [CloseDelim(angled)] + tail
  }

  /** Where the parts of a directive line sit. */
  lemma DirectiveLineLayout(ws: string, angled: bool, name: string, tail: string)
    ensures var line := DirectiveLine(ws, angled, name, tail);
            var o := |Keyword| + |ws|;
            var c := o + 1 + |name|;
            && |line| == c + 1 + |tail|
            && line[..|Keyword|] == Keyword
            && (forall k :: |Keyword| <= k < o ==> line[k] == ws[k - |Keyword|])
            && line[o] == OpenDelim(angled)
            && line[o + 1..c] == name
            && line[c] == CloseDelim(angled)
            && (forall k :: c < k < |line| ==> line[k] == tail[k - c - 1])
  {
  }

  /**
   * A directive line is matched from its opening delimiter to the closing one
   * after the name, and to no later one when the trailing text holds none.
   */
  lemma DirectiveLineMatch(ws: string, angled: bool, name: string, tail: string)
    requires |ws| > 0 && forall k :: 0 <= k < |ws| ==> IsSpace(ws[k])
    requires '\n' !in name
    requires CloseDelim(angled) !in tail
    ensures var line := DirectiveLine(ws, angled, name, tail);
            var s := Span(|Keyword| + |ws|, |Keyword| + |ws| + 1 + |name|, angled);
            && IsMatch(line, s)
            && forall e :: s.close < e < |line| ==> !IsMatch(line, s.(close := e))
  {
    var line := DirectiveLine(ws, angled, name, tail);
    var o := |Keyword| + |ws|;
    var c := o + 1 + |name|;
    DirectiveLineLayout(ws, angled, name, tail);
    assert forall k :: o < k < c ==> line[k] == line[o + 1..c][k - o - 1];
    forall e | c < e < |line| ensures line[e] != CloseDelim(angled) {
      assert line[e] == tail[e - c - 1];
    }
  }

  /**
   * The target of a directive line is its name whatever text follows, as long
   * as that text holds no further closing delimiter; the one exception is an
   * empty quoted name, which yields `None`.
   */
  lemma DirectiveLineTarget(ws: string, angled: bool, name: string, tail: string)
    requires |ws| > 0 && forall k :: 0 <= k < |ws| ==> IsSpace(ws[k])
    requires '\n' !in name
    requires CloseDelim(angled) !in tail
    ensures Extract(DirectiveLine(ws, angled, name, tail))
            == Some(if angled || name != "" then Some(name) else None)
  {
    var line := DirectiveLine(ws, angled, name, tail);
    var s := Span(|Keyword| + |ws|, |Keyword| + |ws| + 1 + |name|, angled);
    DirectiveLineMatch(ws, angled, name, tail);
    DirectiveLineLayout(ws, angled, name, tail);
    ExtractGreedy(line, s);
    assert line[s.open + 1..s.close] == name;
    assert s.open + 1 < s.close <==> name != "";
  }

  /** `#include "name"` and `#include <name>`, followed by the same text, give the same target. */
  lemma QuoteAndAngleAgree(ws: string, name: string, tail: string)
    requires |ws| > 0 && forall k :: 0 <= k < |ws| ==> IsSpace(ws[k])
    requires '\n' !in name && name != ""
    requires '"' !in tail && '>' !in tail
    ensures Extract(DirectiveLine(ws, false, name, tail)) == Extract(DirectiveLine(ws, true, name, tail))
    ensures Extract(DirectiveLine(ws, true, name, tail)) == Some(Some(name))
  {
    DirectiveLineTarget(ws, false, name, tail);
    DirectiveLineTarget(ws, true, name, tail);
  }

  /** `#include ""` matches yet selects `None`, while `#include <>` selects the empty string. */
  lemma EmptyNameQuirk(ws: string)
    requires |ws| > 0 && forall k :: 0 <= k < |ws| ==> IsSpace(ws[k])
    ensures Extract(DirectiveLine(ws, false, "", "")) == Some(None)
    ensures Extract(DirectiveLine(ws, true, "", "")) == Some(Some(""))
  {
    DirectiveLineTarget(ws, false, "", "");
    DirectiveLineTarget(ws, true, "", "");
  }
}
