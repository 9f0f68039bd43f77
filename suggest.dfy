/**
 * The suggestion endpoint `POST /api/ai-suggestions` of backend/server.js,
 * from the moment the model's reply text is in hand: the reply is cleaned
 * with `replace(/```json|```/g, '').trim()` and handed to `JSON.parse`.
 *
 * The call to the generative model is an input (`Some(text)`, or `None`
 * when the call fails); `JSON.parse` is an arbitrary, possibly failing
 * function `parse`.
 */
module Suggestions {
  import opened Wrappers

  const Fence := "```"
  const JsonFence := "```json"
  const GenerationFailed := "Failed to generate suggestions."

  /** The global replace of `/```json|```/` with the empty string. Matches are
      searched left to right; at each position "```json" is tried before "```",
      and the search resumes after the removed text. */
  function StripFences(s: string): (r: string)
    ensures |r| <= |s|
    ensures '`' !in s ==> r == s
    decreases |s|
  {
    if |s| >= 7 && s[..7] == JsonFence then
      assert s[..7][0] in s;
      StripFences(s[7..])
    else if |s| >= 3 && s[..3] == Fence then
      assert s[..3][0] in s;
      StripFences(s[3..])
    else if s == [] then []
    else
      assert s == [s[0]] + s[1..];
      [s[0]] + StripFences(s[1..])
  }

  /** The characters `String.prototype.trim` removes: WhiteSpace (tab,
      vertical tab, form feed, no-break space, byte order mark and the
      Unicode space separators) and LineTerminator (LF, CR, U+2028, U+2029). */
  predicate IsJsSpace(c: char) {
    || c == '\t' || c == '\n' || c == '\U{000B}' || c == '\U{000C}' || c == '\r'
    || c == ' ' || c == '\U{00A0}' || c == '\U{1680}' || ('\U{2000}' <= c <= '\U{200A}')
    || c == '\U{2028}' || c == '\U{2029}' || c == '\U{202F}' || c == '\U{205F}'
    || c == '\U{3000}' || c == '\U{FEFF}'
  }

  /** Drops leading white space: what remains is a suffix of `s` that is empty
      or starts with a non-space, and everything dropped was white space. */
  function TrimStart(s: string): (r: string)
    ensures |r| <= |s| && r == s[|s| - |r|..]
    ensures forall k :: 0 <= k < |s| - |r| ==> IsJsSpace(s[k])
    ensures r == [] || !IsJsSpace(r[0])
  {
    if s != [] && IsJsSpace(s[0]) then TrimStart(s[1..]) else s
  }

  /** Drops trailing white space: what remains is a prefix of `s` that is empty
      or ends with a non-space, and everything dropped was white space. */
  function TrimEnd(s: string): (r: string)
    ensures |r| <= |s| && r == s[..|r|]
    ensures forall k :: |r| <= k < |s| ==> IsJsSpace(s[k])
    ensures r == [] || !IsJsSpace(r[|r| - 1])
  {
    if s != [] && IsJsSpace(s[|s| - 1]) then TrimEnd(s[..|s| - 1]) else s
  }

  /** `String.prototype.trim`: the result neither starts nor ends with white
      space, text of white space only trims to nothing, and text that already
      has non-space ends is left as it is. */
  function Trim(s: string): (r: string)
    ensures |r| <= |s|
    ensures r == [] || (!IsJsSpace(r[0]) && !IsJsSpace(r[|r| - 1]))
    ensures s == [] || (!IsJsSpace(s[0]) && !IsJsSpace(s[|s| - 1])) ==> r == s
  {
    var a := TrimStart(s);
    assert a != [] ==> a[0] == s[|s| - |a|];
    TrimEnd(a)
  }

  /** What `trim` returns is the input with only white space cut from its
      two ends: a slice of `s` starting where `TrimStart` stops, with every
      character before and after it white space. */
  lemma TrimDropsOnlyOuterSpace(s: string)
    ensures var a := |s| - |TrimStart(s)|;
            && a + |Trim(s)| <= |s|
            && Trim(s) == s[a..a + |Trim(s)|]
            && (forall k :: 0 <= k < a ==> IsJsSpace(s[k]))
            && (forall k :: a + |Trim(s)| <= k < |s| ==> IsJsSpace(s[k]))
  {
    var b := TrimStart(s);
    var r := TrimEnd(b);
    assert Trim(s) == r;
    assert |b| <= |s| && b == s[|s| - |b|..];
    assert |r| <= |b| && r == b[..|r|];
    OuterSlice(s, b, r);
  }

  /** A prefix `r` of a suffix `b` of `s` is the slice of `s` between them;
      what lies after `r` in `b` lies after that slice in `s`. */
  lemma OuterSlice(s: string, b: string, r: string)
    requires |b| <= |s| && b == s[|s| - |b|..]
    requires |r| <= |b| && r == b[..|r|]
    requires forall k :: |r| <= k < |b| ==> IsJsSpace(b[k])
    ensures var a := |s| - |b|;
            && r == s[a..a + |r|]
            && (forall k :: a + |r| <= k < |s| ==> IsJsSpace(s[k]))
  {
    var a := |s| - |b|;
    forall k | a + |r| <= k < |s|
      ensures IsJsSpace(s[k])
    {
      assert s[k] == b[k - a];
    }
  }

  /** No three backticks in a row. */
  predicate FenceFree(s: string) {
    forall i :: 0 <= i < |s| - 2 ==> !(s[i] == '`' && s[i + 1] == '`' && s[i + 2] == '`')
  }

  predicate StartsWithTwoBackticks(s: string) {
    |s| >= 2 && s[0] == '`' && s[1] == '`'
  }

  /** The clean-up at server.js line 106. */
  function CleanReply(text: string): (r: string)
    ensures FenceFree(r)
    ensures r == [] || (!IsJsSpace(r[0]) && !IsJsSpace(r[|r| - 1]))
  {
    var stripped := StripFences(text);
    StripFencesLeavesNoFence(text);
    TrimKeepsFenceFree(stripped);
    Trim(stripped)
  }

  /** Where text does not start with a backtick, the replace copies its
      first character and carries on with the rest. */
  lemma StripFencesCopiesPlainChar(s: string)
    requires s != [] && s[0] != '`'
    ensures StripFences(s) == [s[0]] + StripFences(s[1..])
  {
    assert |s| >= 3 ==> s[..3][0] == s[0];
    assert |s| >= 7 ==> s[..7][0] == s[0];
  }

  /** After the global replace no "```" is left, even where a removal brings
      backticks together: a copied backtick is never followed by a removed
      fence or by two more backticks, or the fence would have matched there. */
  lemma {:induction false} StripFencesLeavesNoFence(s: string)
    ensures FenceFree(StripFences(s))
    ensures s != [] && s[0] != '`' ==> StripFences(s) != [] && StripFences(s)[0] == s[0]
    ensures !StartsWithTwoBackticks(s) ==> !StartsWithTwoBackticks(StripFences(s))
    decreases |s|
  {
    if |s| >= 7 && s[..7] == JsonFence {
      StripFencesLeavesNoFence(s[7..]);
    } else if |s| >= 3 && s[..3] == Fence {
      StripFencesLeavesNoFence(s[3..]);
    } else if s != [] {
      var rest := StripFences(s[1..]);
      StripFencesLeavesNoFence(s[1..]);
      assert StripFences(s) == [s[0]] + rest by {
        assert |s| >= 3 ==> s[..3][0] == s[0] && s[..3][1] == s[1] && s[..3][2] == s[2];
        assert |s| >= 7 ==> s[..7][0] == s[0] && s[..7][1] == s[1] && s[..7][2] == s[2];
      }
      assert !StartsWithFence(s) by {
        assert |s| >= 3 ==> s[..3][0] == s[0] && s[..3][1] == s[1] && s[..3][2] == s[2];
      }
      assert s[0] == '`' ==> !StartsWithTwoBackticks(rest) by {
        if |s| >= 2 && s[0] == '`' && s[1] != '`' {
          assert rest[0] == s[1];
        }
      }
      FenceFreeCons(s[0], rest);
    }
  }

  /** A character put before fence-free text makes no fence, provided it is
      not a backtick in front of two more. */
  lemma FenceFreeCons(c: char, rest: string)
    requires FenceFree(rest)
    requires c == '`' ==> !StartsWithTwoBackticks(rest)
    ensures FenceFree([c] + rest)
  {
    var r := [c] + rest;
    assert forall i :: 1 <= i < |r| ==> r[i] == rest[i - 1];
  }


  predicate StartsWithFence(s: string) {
    |s| >= 3 && s[0] == '`' && s[1] == '`' && s[2] == '`'
  }

  lemma FenceFreeSubrange(s: string, lo: int, hi: int)
    requires FenceFree(s) && 0 <= lo <= hi <= |s|
    ensures FenceFree(s[lo..hi])
  {
    var t := s[lo..hi];
    forall i | 0 <= i < |t| - 2 ensures !(t[i] == '`' && t[i + 1] == '`' && t[i + 2] == '`') {
      assert t[i] == s[lo + i] && t[i + 1] == s[lo + i + 1] && t[i + 2] == s[lo + i + 2];
    }
  }

  /** Text without three backticks in a row is left as it is. */
  lemma {:induction false} StripFencesOfFenceFree(s: string)
    requires FenceFree(s)
    ensures StripFences(s) == s
    decreases |s|
  {
    if s != [] {
      assert |s| >= 3 ==> s[..3][0] == s[0] && s[..3][1] == s[1] && s[..3][2] == s[2];
      assert |s| >= 7 ==> s[..7][0] == s[0] && s[..7][1] == s[1] && s[..7][2] == s[2];
      assert !StartsWithFence(s);
      FenceFreeSubrange(s, 1, |s|);
      StripFencesOfFenceFree(s[1..]);
    }
  }

  /** Text without backticks passes through the replace untouched, so
      `StripFences(x + y) == x + StripFences(y)`. */
  lemma {:induction false} StripFencesSkipsPlainPrefix(x: string, y: string)
    requires '`' !in x
    ensures StripFences(x + y) == x + StripFences(y)
    decreases |x|
  {
    if x != [] {
      var s := x + y;
      NoBacktickInTail(x);
      assert s[0] == x[0] && s[1..] == x[1..] + y;
      StripFencesCopiesPlainChar(s);
      StripFencesSkipsPlainPrefix(x[1..], y);
      ConsRegroup(x, StripFences(y));
    } else {
      assert x + y == y;
    }
  }

  lemma NoBacktickInTail(x: string)
    requires x != [] && '`' !in x
    ensures x[0] != '`' && '`' !in x[1..]
  {
    assert x[0] in x;
    assert forall k :: 0 <= k < |x| - 1 ==> x[1..][k] == x[k + 1];
  }

  lemma ConsRegroup(x: string, z: string)
    requires x != []
    ensures [x[0]] + (x[1..] + z) == x + z
  {
    assert x == [x[0]] + x[1..];
  }

  lemma TrimKeepsFenceFree(s: string)
    requires FenceFree(s)
    ensures FenceFree(Trim(s))
  {
    var a := TrimStart(s);
    FenceFreeSubrange(s, |s| - |a|, |s|);
    FenceFreeSubrange(a, 0, |TrimEnd(a)|);
  }

  /** Text that neither starts nor ends with white space is its own trim. */
  lemma TrimOfTrimmed(s: string)
    requires s == [] || (!IsJsSpace(s[0]) && !IsJsSpace(s[|s| - 1]))
    ensures Trim(s) == s
  {
  }

  /** Cleaning twice is cleaning once. */
  lemma CleanReplyIdempotent(text: string)
    ensures CleanReply(CleanReply(text)) == CleanReply(text)
  {
    var once := CleanReply(text);
    StripFencesOfFenceFree(once);
    TrimOfTrimmed(once);
  }

  /** For a reply without backticks the clean-up is only the trim. */
  lemma CleanReplyWithoutBackticks(text: string)
    requires '`' !in text
    ensures CleanReply(text) == Trim(text)
  {
    StripFencesSkipsPlainPrefix(text, []);
    assert text + [] == text;
  }

  /** A reply wrapped as "```json" + x + "```", x without backticks, cleans to
      the trimmed x. */
  lemma CleanReplyOfFencedBlock(x: string)
    requires '`' !in x
    ensures CleanReply(JsonFence + x + Fence) == Trim(x)
  {
    var s := JsonFence + x + Fence;
    assert s[..7] == JsonFence;
    assert s[7..] == x + Fence;
    StripFencesSkipsPlainPrefix(x, Fence);
    assert StripFences(Fence) == [];
    assert x + [] == x;
  }

  /** A leading white-space character is dropped by `TrimStart`. */
  lemma TrimStartPastSpace(x: string)
    requires x != [] && IsJsSpace(x[0])
    ensures TrimStart(x) == TrimStart(x[1..])
  {
  }

  /** A trailing white-space character is dropped by `TrimEnd`. */
  lemma TrimEndPastSpace(x: string)
    requires x != [] && IsJsSpace(x[|x| - 1])
    ensures TrimEnd(x) == TrimEnd(x[..|x| - 1])
  {
  }

  /** A line feed on either side of trimmed text is trimmed away. */
  lemma LinesAroundTrimmed(inner: string)
    requires inner != [] && !IsJsSpace(inner[0]) && !IsJsSpace(inner[|inner| - 1])
    ensures Trim("\n" + inner + "\n") == inner
  {
    var x := "\n" + inner + "\n";
    var y := inner + "\n";
    assert x[0] == '\n' && x[1..] == y;
    TrimStartPastSpace(x);
    assert y[0] == inner[0];
    assert TrimStart(y) == y;
    assert y[|y| - 1] == '\n' && y[..|y| - 1] == inner;
    TrimEndPastSpace(y);
    assert TrimEnd(inner) == inner;
  }

  /** The usual shape of a model reply, a fenced block on lines of its own,
      cleans to exactly the block's text. */
  lemma CleanReplyOfFencedLines(inner: string)
    requires '`' !in inner
    requires inner != [] && !IsJsSpace(inner[0]) && !IsJsSpace(inner[|inner| - 1])
    ensures CleanReply(JsonFence + "\n" + inner + "\n" + Fence) == inner
  {
    var x := "\n" + inner + "\n";
    assert '`' !in x by {
      NoBacktickBetweenLines(inner);
    }
    CleanReplyOfFencedBlock(x);
    LinesAroundTrimmed(inner);
    RegroupAroundLines(JsonFence, inner, Fence);
  }

  /** Line feeds around text without backticks add none. */
  lemma NoBacktickBetweenLines(inner: string)
    requires '`' !in inner
    ensures '`' !in "\n" + inner + "\n"
  {
  }

  lemma RegroupAroundLines(a: string, inner: string, b: string)
    ensures a + "\n" + inner + "\n" + b == a + ("\n" + inner + "\n") + b
  {
  }

  /** The reply "```json\n["a","b","c"]\n```" reaches `JSON.parse` as
      `["a","b","c"]`. */
  lemma FencedArrayScenario(text: string)
    requires text == "[\"a\",\"b\",\"c\"]"
    ensures CleanReply(JsonFence + "\n" + text + "\n" + Fence) == text
  {
    assert '`' !in text && !IsJsSpace(text[0]) && !IsJsSpace(text[|text| - 1]) by {
      assert text == ['[', '"', 'a', '"', ',', '"', 'b', '"', ',', '"', 'c', '"', ']'];
    }
    CleanReplyOfFencedLines(text);
  }


  datatype SuggestBody<J> = Suggestions(suggestions: J) | SuggestError(error: string)

  datatype SuggestResponse<J> = SuggestResponse(status: int, body: SuggestBody<J>)

  /** The handler's outcome: 200 with whatever `JSON.parse` produced from the
      cleaned reply (nothing checks that it is an array of three strings), or
      500 with a fixed message when the model call or the parse fails. */
  function Suggest<J>(reply: Option<string>, parse: string -> Option<J>): (r: SuggestResponse<J>)
    ensures r.status == 200 || r == SuggestResponse(500, SuggestError(GenerationFailed))
    ensures r.status == 200 <==> reply.Some? && parse(CleanReply(reply.value)).Some?
    ensures r.status == 200 ==> r.body == Suggestions(parse(CleanReply(reply.value)).value)
  {
    match reply
    case None => SuggestResponse(500, SuggestError(GenerationFailed))
    case Some(text) =>
      match parse(CleanReply(text))
      case None => SuggestResponse(500, SuggestError(GenerationFailed))
      case Some(value) => SuggestResponse(200, Suggestions(value))
  }

  /** A reply that parses after cleaning is forwarded as is; the parser only
      ever sees cleaned text, so a reply that is already clean gives the same
      outcome as its fenced form. */
  lemma FencedAndBareRepliesAgree<J>(x: string, parse: string -> Option<J>)
    requires '`' !in x
    ensures Suggest(Some(JsonFence + x + Fence), parse) == Suggest(Some(Trim(x)), parse)
  {
    CleanReplyOfFencedBlock(x);
    CleanReplyWithoutBackticks(x);
    CleanReplyIdempotent(x);
  }
}
