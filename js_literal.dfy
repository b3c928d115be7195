/** The bracket-matching scanner that cuts the first array or object literal
    out of the car feed's JavaScript text (extractFirstJsLiteral in app.js).
    The scanner is quote-aware: brackets inside '...', "..." or `...`
    (with backslash escapes) do not count. */
module JsLiteral {
  import opened Common

  predicate IsOpener(c: char) { c == '[' || c == '{' }
  predicate IsCloser(c: char) { c == ']' || c == '}' }
  predicate IsQuote(c: char) { c == '"' || c == '\'' || c == '`' }

  /** The first index at or after `from` holding '[' or '{' (the regex search for /[\[{]/). */
  function FirstOpener(text: string, from: nat): (r: Option<nat>)
    requires from <= |text|
    ensures r.Some? ==> from <= r.value < |text| && IsOpener(text[r.value])
    ensures r.Some? ==> forall j :: from <= j < r.value ==> !IsOpener(text[j])
    ensures r.None? ==> forall j :: from <= j < |text| ==> !IsOpener(text[j])
    decreases |text| - from
  {
    if from == |text| then None
    else if IsOpener(text[from]) then Some(from)
    else FirstOpener(text, from + 1)
  }

  /** What the scanning loop returns when it resumes at index `i` with the given
      bracket stack, open-quote character and escape flag. */
  function ScanFrom(text: string, start: nat, i: nat, stack: seq<char>, inStr: Option<char>, esc: bool): Option<string>
    requires start <= i <= |text|
    decreases |text| - i
  {
    if i == |text| then None
    else
      var ch := text[i];
      if inStr.Some? then
        if esc then ScanFrom(text, start, i + 1, stack, inStr, false)
        else if ch == '\\' then ScanFrom(text, start, i + 1, stack, inStr, true)
        else if ch == inStr.value then ScanFrom(text, start, i + 1, stack, None, esc)
        else ScanFrom(text, start, i + 1, stack, inStr, esc)
      else if IsQuote(ch) then ScanFrom(text, start, i + 1, stack, Some(ch), esc)
      else if IsOpener(ch) then ScanFrom(text, start, i + 1, stack + [ch], None, esc)
      else if IsCloser(ch) then
        if |stack| == 0 then ScanFrom(text, start, i + 1, stack, None, esc)
        else if |stack| == 1 then Some(text[start..i + 1])
        else ScanFrom(text, start, i + 1, stack[..|stack| - 1], None, esc)
      else ScanFrom(text, start, i + 1, stack, None, esc)
  }

  /** The value extractFirstJsLiteral returns (None stands for null). */
  function Extract(text: string): Option<string>
  {
    match FirstOpener(text, 0)
    case None => None
    case Some(s) => ScanFrom(text, s, s, [], None, false)
  }

  /** extractFirstJsLiteral, step by step as the source does it. */
  method ExtractFirstJsLiteral(text: string) returns (r: Option<string>)
    ensures r == Extract(text)
    ensures (forall j :: 0 <= j < |text| ==> !IsOpener(text[j])) ==> r == None
  {
    var start := 0;
    while start < |text| && !IsOpener(text[start])
      invariant start <= |text|
      invariant FirstOpener(text, start) == FirstOpener(text, 0)
    {
      start := start + 1;
    }
    if start == |text| {
      return None;
    }
    var stack: seq<char> := [];
    var inStr: Option<char> := None;
    var esc := false;
    var i := start;
    while i < |text|
      invariant start <= i <= |text|
      invariant ScanFrom(text, start, i, stack, inStr, esc) == Extract(text)
    {
      var ch := text[i];
      if inStr.Some? {
        if esc {
          esc := false;
        } else if ch == '\\' {
          esc := true;
        } else if ch == inStr.value {
          inStr := None;
        }
      } else {
        if IsQuote(ch) {
          inStr := Some(ch);
        } else {
          if IsOpener(ch) {
            stack := stack + [ch];
          }
          if IsCloser(ch) && |stack| > 0 {
            var wasLast := |stack| == 1;
            stack := stack[..|stack| - 1];
            if wasLast {
              return Some(text[start..i + 1]);
            }
          }
        }
      }
      i := i + 1;
    }
    return None;
  }

  /** A found literal is the slice of the text from the first opener up to a closing bracket. */
  lemma {:induction false} ScanFromShape(text: string, start: nat, i: nat, stack: seq<char>, inStr: Option<char>, esc: bool, s: string)
    requires start <= i <= |text|
    requires ScanFrom(text, start, i, stack, inStr, esc) == Some(s)
    ensures exists e :: i < e <= |text| && s == text[start..e] && IsCloser(text[e - 1])
    decreases |text| - i
  {
    var ch := text[i];
    if inStr.Some? {
      if esc {
        ScanFromShape(text, start, i + 1, stack, inStr, false, s);
      } else if ch == '\\' {
        ScanFromShape(text, start, i + 1, stack, inStr, true, s);
      } else if ch == inStr.value {
        ScanFromShape(text, start, i + 1, stack, None, esc, s);
      } else {
        ScanFromShape(text, start, i + 1, stack, inStr, esc, s);
      }
    } else if IsQuote(ch) {
      ScanFromShape(text, start, i + 1, stack, Some(ch), esc, s);
    } else if IsOpener(ch) {
      ScanFromShape(text, start, i + 1, stack + [ch], None, esc, s);
    } else if IsCloser(ch) {
      if |stack| == 0 {
        ScanFromShape(text, start, i + 1, stack, None, esc, s);
      } else if |stack| == 1 {
        assert s == text[start..i + 1];
      } else {
        ScanFromShape(text, start, i + 1, stack[..|stack| - 1], None, esc, s);
      }
    } else {
      ScanFromShape(text, start, i + 1, stack, None, esc, s);
    }
  }

  /** Whenever a literal is returned, it starts at the text's first '[' or '{'
      and ends with ']' or '}'. */
  lemma ExtractShape(text: string, s: string)
    requires Extract(text) == Some(s)
    ensures exists st, e :: 0 <= st < e <= |text| && s == text[st..e]
              && IsOpener(text[st]) && (forall j :: 0 <= j < st ==> !IsOpener(text[j]))
              && IsCloser(text[e - 1])
  {
    var st := FirstOpener(text, 0).value;
    ScanFromShape(text, st, st, [], None, false, s);
  }

  /** The lexical state after a run of JavaScript text: the quote of the
      string it is inside, if any, and whether the previous character was a
      backslash inside that string. */
  datatype LexState = LexState(inStr: Option<char>, esc: bool)

  /** The lexical state after one more character. */
  function LexStep(l: LexState, ch: char): LexState
  {
    match l.inStr
    case None => if IsQuote(ch) then LexState(Some(ch), false) else LexState(None, false)
    case Some(q) =>
      if l.esc then LexState(Some(q), false)
      else if ch == '\\' then LexState(Some(q), true)
      else if ch == q then LexState(None, false)
      else LexState(Some(q), false)
  }

  /** The lexical state after text[st..k], starting outside any string.
      Outside a string there is never a pending escape. */
  function Lex(text: string, st: nat, k: nat): (r: LexState)
    requires st <= k <= |text|
    ensures r.inStr.None? ==> !r.esc
    decreases k - st
  {
    if k == st then LexState(None, false) else LexStep(Lex(text, st, k - 1), text[k - 1])
  }

  /** What character k does to the bracket depth: +1 for an opener and -1 for
      a closer outside strings, 0 otherwise. */
  function Delta(text: string, st: nat, k: nat): int
    requires st <= k < |text|
  {
    if Lex(text, st, k).inStr.Some? then 0
    else if IsOpener(text[k]) then 1
    else if IsCloser(text[k]) then -1
    else 0
  }

  /** Openers minus closers among the characters of text[st..e] that lie
      outside strings. */
  function Depth(text: string, st: nat, e: nat): int
    requires st <= e <= |text|
    decreases e - st
  {
    if e == st then 0 else Depth(text, st, e - 1) + Delta(text, st, e - 1)
  }

  /** e is the first index after st at which the depth since st is back to 0. */
  ghost predicate FirstBalance(text: string, st: nat, e: nat)
    requires st < e <= |text|
  {
    Depth(text, st, e) == 0 && forall e' :: st < e' < e ==> Depth(text, st, e') > 0
  }

  /** r is what a scan from index i should give: the text from st to the first
      index after i where the depth is 0, or nothing when there is none. */
  ghost predicate Tracks(text: string, st: nat, i: nat, r: Option<string>)
    requires st <= i <= |text|
  {
    match r
    case Some(s) => exists e :: i < e <= |text| && s == text[st..e] && Depth(text, st, e) == 0
                      && forall e' :: i < e' < e ==> Depth(text, st, e') > 0
    case None => forall e' :: i < e' <= |text| ==> Depth(text, st, e') > 0
  }

  /** A character after which the depth is still positive does not change
      what the scan should give. */
  lemma TracksBack(text: string, st: nat, i: nat, r: Option<string>)
    requires st <= i < |text| && Tracks(text, st, i + 1, r) && Depth(text, st, i + 1) > 0
    ensures Tracks(text, st, i, r)
  {
    if r.Some? {
      var e :| i + 1 < e <= |text| && r.value == text[st..e] && Depth(text, st, e) == 0
               && forall e' :: i + 1 < e' < e ==> Depth(text, st, e') > 0;
      assert forall e' :: i < e' < e ==> Depth(text, st, e') > 0;
    }
  }

  /** From index i on, the scanner's stack is the depth and its string state
      the lexical state: it stops at the first later index where the depth is
      0, and gives nothing when there is none. */
  lemma {:induction false} ScanTracksDepth(text: string, st: nat, i: nat, stack: seq<char>, inStr: Option<char>, esc: bool)
    requires st < i <= |text| && |stack| >= 1
    requires |stack| == Depth(text, st, i) && Lex(text, st, i) == LexState(inStr, esc)
    ensures Tracks(text, st, i, ScanFrom(text, st, i, stack, inStr, esc))
    decreases |text| - i
  {
    if i < |text| {
      var ch := text[i];
      var r := ScanFrom(text, st, i, stack, inStr, esc);
      assert Lex(text, st, i + 1) == LexStep(LexState(inStr, esc), ch);
      assert Depth(text, st, i + 1) == |stack| + Delta(text, st, i);
      if inStr.Some? {
        if esc {
          ScanTracksDepth(text, st, i + 1, stack, inStr, false);
        } else if ch == '\\' {
          ScanTracksDepth(text, st, i + 1, stack, inStr, true);
        } else if ch == inStr.value {
          ScanTracksDepth(text, st, i + 1, stack, None, false);
        } else {
          ScanTracksDepth(text, st, i + 1, stack, inStr, false);
        }
        TracksBack(text, st, i, r);
      } else if IsQuote(ch) {
        ScanTracksDepth(text, st, i + 1, stack, Some(ch), false);
        TracksBack(text, st, i, r);
      } else if IsOpener(ch) {
        ScanTracksDepth(text, st, i + 1, stack + [ch], None, false);
        TracksBack(text, st, i, r);
      } else if IsCloser(ch) {
        if |stack| > 1 {
          ScanTracksDepth(text, st, i + 1, stack[..|stack| - 1], None, false);
          TracksBack(text, st, i, r);
        } else {
          assert r == Some(text[st..i + 1]);
        }
      } else {
        ScanTracksDepth(text, st, i + 1, stack, None, false);
        TracksBack(text, st, i, r);
      }
    }
  }

  /** The scan from the first opener gives what Tracks describes. */
  lemma ExtractTracks(text: string, st: nat)
    requires FirstOpener(text, 0) == Some(st)
    ensures Tracks(text, st, st, Extract(text))
  {
    var ch := text[st];
    assert [] + [ch] == [ch];
    assert Extract(text) == ScanFrom(text, st, st + 1, [ch], None, false);
    assert Depth(text, st, st + 1) == 1;
    ScanTracksDepth(text, st, st + 1, [ch], None, false);
    TracksBack(text, st, st, Extract(text));
  }

  /** At most one index is the first balance point. */
  lemma FirstBalanceUnique(text: string, st: nat, e: nat, e0: nat)
    requires st < e <= |text| && st < e0 <= |text|
    requires FirstBalance(text, st, e) && FirstBalance(text, st, e0)
    ensures e == e0
  {
  }

  /** What Tracks from st says, read as the first balance point. */
  lemma TracksFirstBalance(text: string, st: nat, r: Option<string>)
    requires st <= |text| && Tracks(text, st, st, r)
    ensures forall e :: st < e <= |text| ==> (r == Some(text[st..e]) <==> FirstBalance(text, st, e))
    ensures r.None? <==> forall e :: st < e <= |text| ==> Depth(text, st, e) > 0
  {
    if r.Some? {
      var e0 :| st < e0 <= |text| && r.value == text[st..e0] && FirstBalance(text, st, e0);
      assert Depth(text, st, e0) == 0;
      forall e | st < e <= |text| ensures r == Some(text[st..e]) <==> FirstBalance(text, st, e) {
        if FirstBalance(text, st, e) {
          FirstBalanceUnique(text, st, e, e0);
        }
        if r == Some(text[st..e]) {
          assert |text[st..e]| == |text[st..e0]|;
        }
      }
    }
  }

  /** The literal extractFirstJsLiteral returns ends exactly where the depth of
      brackets outside strings, counted from the first opener, first returns to
      0; it is null exactly when it never does. */
  lemma ExtractFirstBalance(text: string, st: nat)
    requires FirstOpener(text, 0) == Some(st)
    ensures forall e :: st < e <= |text| ==> (Extract(text) == Some(text[st..e]) <==> FirstBalance(text, st, e))
    ensures Extract(text).None? <==> forall e :: st < e <= |text| ==> Depth(text, st, e) > 0
  {
    ExtractTracks(text, st);
    TracksFirstBalance(text, st, Extract(text));
  }

  /** Inside a quoted string without escapes, nothing before the closing quote
      (brackets included) has any effect: scanning resumes after that quote
      with the bracket stack unchanged. */
  lemma {:induction false} QuotedTextIgnored(text: string, start: nat, i: nat, j: nat, stack: seq<char>, q: char)
    requires start <= i <= j < |text|
    requires IsQuote(q) && text[j] == q
    requires forall k :: i <= k < j ==> text[k] != q && text[k] != '\\'
    ensures ScanFrom(text, start, i, stack, Some(q), false) == ScanFrom(text, start, j + 1, stack, None, false)
    decreases j - i
  {
    if i < j {
      QuotedTextIgnored(text, start, i + 1, j, stack, q);
    }
  }

  /** A backslash inside a string makes the next character, even a quote, part of the string. */
  lemma EscapedCharIgnored(text: string, start: nat, i: nat, stack: seq<char>, q: char)
    requires start <= i && i + 1 < |text|
    requires text[i] == '\\'
    ensures ScanFrom(text, start, i, stack, Some(q), false) == ScanFrom(text, start, i + 2, stack, Some(q), false)
  {
  }
}
