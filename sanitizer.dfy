/**
 * The response sanitiser `cleanResponse`: nine global regular-expression
 * replacements and a final trim, applied in a fixed order to the text a
 * language model returned, grouped here into seven passes (the pair and
 * single-character replacements of a marker form one pass, and so do the
 * two escapes).  Each pass is a left-to-right scan over the string, the
 * way a global `String.prototype.replace` visits non-overlapping matches.
 */
module Sanitizer {
  import opened Strings

  // ---------------------------------------------------------------------
  // Pass 1: /<think>[\s\S]*?<\/think>/gi  ->  ""
  // ---------------------------------------------------------------------

  const OpenTag: string := "<think>"
  const CloseTag: string := "</think>"

  /**
   * `s` begins with the lower-case `tag` when ASCII letters are compared
   * without regard to case (the `i` flag without `u` folds ASCII only).
   */
  predicate StartsWithCi(s: string, tag: string)
  {
    |tag| <= |s| && forall i :: 0 <= i < |tag| ==> LowerAscii(s[i]) == tag[i]
  }

  /** The first position at or after `from` where `tag` occurs, case-insensitively. */
  function FindCi(s: string, tag: string, from: nat): (r: Option<nat>)
    requires from <= |s|
    ensures r.Some? ==> from <= r.value <= |s| && StartsWithCi(s[r.value..], tag)
    ensures forall j :: from <= j <= |s| && (r.None? || j < r.value) ==> !StartsWithCi(s[j..], tag)
    decreases |s| - from
  {
    if StartsWithCi(s[from..], tag) then Some(from)
    else if from == |s| then None
    else FindCi(s, tag, from + 1)
  }

  /**
   * Deletes every segment from an opening tag to the NEAREST closing tag
   * after it; an opening tag with no closing tag after it is kept.
   */
  function StripThink(s: string): (r: string)
    ensures |r| <= |s|
    decreases |s|
  {
    if s == [] then []
    else if StartsWithCi(s, OpenTag) && FindCi(s, CloseTag, |OpenTag|).Some? then
      StripThink(s[FindCi(s, CloseTag, |OpenTag|).value + |CloseTag|..])
    else
      [s[0]] + StripThink(s[1..])
  }

  /** The think pass only deletes: every character it keeps was in its input. */
  lemma {:induction false} StripThinkChars(s: string)
    ensures forall c :: c in StripThink(s) ==> c in s
    decreases |s|
  {
    if s == [] {
    } else if StartsWithCi(s, OpenTag) && FindCi(s, CloseTag, |OpenTag|).Some? {
      var n := FindCi(s, CloseTag, |OpenTag|).value + |CloseTag|;
      SuffixChars(s, n);
      StripThinkChars(s[n..]);
    } else {
      SuffixChars(s, 1);
      StripThinkChars(s[1..]);
    }
  }

  /** Every character of a suffix is a character of the whole. */
  lemma {:induction false} SuffixChars(s: string, n: nat)
    requires n <= |s|
    ensures forall c :: c in s[n..] ==> c in s
  {
    forall c | c in s[n..]
      ensures c in s
    {
      var i :| 0 <= i < |s[n..]| && s[n..][i] == c;
      assert s[n + i] == c;
    }
  }

  /** Every character of a slice is a character of the whole. */
  lemma {:induction false} SliceChars(s: string, a: nat, b: nat)
    requires a <= b <= |s|
    ensures forall c :: c in s[a..b] ==> c in s
  {
    forall c | c in s[a..b]
      ensures c in s
    {
      var i :| 0 <= i < |s[a..b]| && s[a..b][i] == c;
      assert s[a + i] == c;
    }
  }

  /** No closing tag begins anywhere in `s`. */
  predicate NoCloseTag(s: string)
  {
    forall j :: 0 <= j < |s| ==> !StartsWithCi(s[j..], CloseTag)
  }

  /** No opening tag begins anywhere in `s`. */
  predicate NoOpenTag(s: string)
  {
    forall j :: 0 <= j < |s| ==> !StartsWithCi(s[j..], OpenTag)
  }

  /** A closing tag cannot begin inside text free of closing tags and run into a following '<'. */
  lemma {:induction false} NoCloseAcross(body: string, tail: string, m: nat)
    requires NoCloseTag(body) && m < |body|
    requires tail != [] && tail[0] == '<'
    ensures !StartsWithCi((body + tail)[m..], CloseTag)
  {
    var s := (body + tail)[m..];
    var l := |body| - m;
    if l >= |CloseTag| {
      assert !StartsWithCi(body[m..], CloseTag);
      assert forall i :: 0 <= i < |CloseTag| ==> s[i] == body[m..][i];
    } else {
      assert s[l] == '<';
      assert LowerAscii(s[l]) != CloseTag[l];
    }
  }

  /** Where the tags of a think block sit in the text. */
  lemma {:induction false} ThinkBlockTags(open: string, body: string, close: string, rest: string)
    requires |open| == |OpenTag| && StartsWithCi(open, OpenTag)
    requires |close| == |CloseTag| && StartsWithCi(close, CloseTag)
    ensures var s := open + body + close + rest;
            var p := |OpenTag| + |body|;
            StartsWithCi(s, OpenTag) && StartsWithCi(s[p..], CloseTag) && s[p + |CloseTag|..] == rest
  {
    var s := open + body + close + rest;
    var p := |OpenTag| + |body|;
    assert s[..|OpenTag|] == open;
    assert s[p..][..|CloseTag|] == close;
    assert s[p + |CloseTag|..] == rest;
  }

  /** No closing tag begins between the opening tag and the block's own closing tag. */
  lemma {:induction false} ThinkBodyHasNoClose(open: string, body: string, close: string, rest: string)
    requires |open| == |OpenTag|
    requires close != [] && close[0] == '<'
    requires NoCloseTag(body)
    ensures var s := open + body + close + rest;
            forall j :: |OpenTag| <= j < |OpenTag| + |body| ==> !StartsWithCi(s[j..], CloseTag)
  {
    var s := open + body + close + rest;
    forall j | |OpenTag| <= j < |OpenTag| + |body|
      ensures !StartsWithCi(s[j..], CloseTag)
    {
      NoCloseAcross(body, close + rest, j - |OpenTag|);
      assert s[j..] == (body + (close + rest))[j - |OpenTag|..];
    }
  }

  /**
   * One think block, from a case-insensitive `<think>` through the first
   * `</think>` after it, is deleted and scanning resumes after it.
   */
  lemma {:induction false} ThinkBlockRemoved(open: string, body: string, close: string, rest: string)
    requires |open| == |OpenTag| && StartsWithCi(open, OpenTag)
    requires |close| == |CloseTag| && StartsWithCi(close, CloseTag)
    requires NoCloseTag(body)
    ensures StripThink(open + body + close + rest) == StripThink(rest)
  {
    var s := open + body + close + rest;
    var p := |OpenTag| + |body|;
    ThinkBlockTags(open, body, close, rest);
    assert close[0] == '<' by {
      assert LowerAscii(close[0]) == '<';
    }
    ThinkBodyHasNoClose(open, body, close, rest);
    assert FindCi(s, CloseTag, |OpenTag|) == Some(p);
  }

  /** With no closing tag anywhere, an opening tag is not a match and the text is kept. */
  lemma {:induction false} UnclosedThinkKept(s: string)
    requires NoCloseTag(s)
    ensures StripThink(s) == s
  {
    if s != [] {
      if StartsWithCi(s, OpenTag) {
        var f := FindCi(s, CloseTag, |OpenTag|);
        assert f.None?;
      }
      assert StripThink(s) == [s[0]] + StripThink(s[1..]);
      assert NoCloseTag(s[1..]) by {
        forall j | 0 <= j < |s[1..]|
          ensures !StartsWithCi(s[1..][j..], CloseTag)
        {
          assert s[1..][j..] == s[j + 1..];
        }
      }
      UnclosedThinkKept(s[1..]);
    }
  }

  /** Text in which no opening tag begins is kept whole. */
  lemma {:induction false} NoThinkKept(s: string)
    requires NoOpenTag(s)
    ensures StripThink(s) == s
  {
    if s != [] {
      assert !StartsWithCi(s[0..], OpenTag);
      assert s[0..] == s;
      assert NoOpenTag(s[1..]) by {
        forall j | 0 <= j < |s[1..]|
          ensures !StartsWithCi(s[1..][j..], OpenTag)
        {
          assert s[1..][j..] == s[j + 1..];
        }
      }
      NoThinkKept(s[1..]);
    }
  }

  /** Text without '<' contains no opening tag. */
  lemma {:induction false} NoAngleNoOpenTag(s: string)
    requires '<' !in s
    ensures NoOpenTag(s)
  {
    forall j | 0 <= j < |s|
      ensures !StartsWithCi(s[j..], OpenTag)
    {
      assert s[j..][0] == s[j];
    }
  }

  /** Where no opening tag begins, the first character is kept and scanning moves on. */
  lemma {:induction false} ThinkKeepsFirst(s: string)
    requires s != [] && !StartsWithCi(s, OpenTag)
    ensures StripThink(s) == [s[0]] + StripThink(s[1..])
  {
  }

  lemma {:induction false} ThinkPrefixStep(a: string, b: string)
    requires a != [] && !StartsWithCi(a + b, OpenTag)
    ensures StripThink(a + b) == [a[0]] + StripThink(a[1..] + b)
  {
    ThinkKeepsFirst(a + b);
    assert (a + b)[1..] == a[1..] + b;
  }

  /** A non-empty sequence is its first element followed by the rest. */
  lemma {:induction false} ConsSplit(a: string, t: string)
    requires a != []
    ensures [a[0]] + (a[1..] + t) == a + t
  {
    assert a == [a[0]] + a[1..];
  }

  /** Text at whose positions no opening tag begins passes through unchanged, whatever follows it. */
  lemma {:induction false} PrefixKept(a: string, b: string)
    requires forall k :: 0 <= k < |a| ==> !StartsWithCi((a + b)[k..], OpenTag)
    ensures StripThink(a + b) == a + StripThink(b)
  {
    if a == [] {
      assert a + b == b;
    } else {
      PrefixTailHasNoOpenTag(a, b);
      ThinkPrefixStep(a, b);
      PrefixKept(a[1..], b);
      ConsSplit(a, StripThink(b));
    }
  }

  lemma {:induction false} PrefixTailHasNoOpenTag(a: string, b: string)
    requires a != []
    requires forall k :: 0 <= k < |a| ==> !StartsWithCi((a + b)[k..], OpenTag)
    ensures !StartsWithCi(a + b, OpenTag) && (a + b)[0] == a[0]
    ensures forall k :: 0 <= k < |a[1..]| ==> !StartsWithCi((a[1..] + b)[k..], OpenTag)
  {
    assert (a + b)[0..] == a + b;
    forall k | 0 <= k < |a[1..]|
      ensures !StartsWithCi((a[1..] + b)[k..], OpenTag)
    {
      assert (a[1..] + b)[k..] == (a + b)[k + 1..];
    }
  }

  /**
   * Here and in the examples below, a literal comes in as a parameter
   * pinned by `requires`, which keeps the verifier from evaluating the
   * passes on it in full.
   */
  lemma {:induction false} TailHasNoOpenTag(rest: string)
    requires rest == "nk>y</think>"
    ensures NoOpenTag(rest)
  {
    forall j | 0 <= j < |rest|
      ensures !StartsWithCi(rest[j..], OpenTag)
    {
      assert rest[j..][0] == rest[j];
      assert j == 4 ==> rest[j..][1] == '/';
    }
  }

  lemma {:induction false} HeadHasNoOpenTag(a: string, b: string)
    requires a == "<thi" && b != [] && b[0] == '<'
    ensures forall k :: 0 <= k < |a| ==> !StartsWithCi((a + b)[k..], OpenTag)
  {
    forall k | 0 <= k < |a|
      ensures !StartsWithCi((a + b)[k..], OpenTag)
    {
      assert (a + b)[k..][0] == (a + b)[k];
      assert k == 0 ==> (a + b)[k..][4] == '<';
    }
  }

  lemma {:induction false} SingleCharHasNoCloseTag(x: string)
    requires |x| == 1
    ensures NoCloseTag(x)
  {
    assert !StartsWithCi(x[0..], CloseTag);
  }

  /** A think block holding a single character is deleted. */
  lemma {:induction false} ShortThinkBlockRemoved(x: string, rest: string)
    requires |x| == 1
    ensures StripThink(OpenTag + x + CloseTag + rest) == StripThink(rest)
  {
    assert StartsWithCi(OpenTag, OpenTag) && StartsWithCi(CloseTag, CloseTag);
    SingleCharHasNoCloseTag(x);
    ThinkBlockRemoved(OpenTag, x, CloseTag, rest);
  }

  /**
   * Text in front of a one-character think block is kept, the block is
   * deleted, and text after it without opening tags is kept.
   */
  lemma {:induction false} ThinkSplice(a: string, x: string, rest: string)
    requires |x| == 1
    requires forall k :: 0 <= k < |a| ==> !StartsWithCi((a + (OpenTag + x + CloseTag + rest))[k..], OpenTag)
    requires NoOpenTag(rest)
    ensures StripThink(a + (OpenTag + x + CloseTag + rest)) == a + rest
  {
    PrefixKept(a, OpenTag + x + CloseTag + rest);
    ShortThinkBlockRemoved(x, rest);
    NoThinkKept(rest);
  }

  /** The first pass deletes the inner block of "<thi<think>x</think>nk>y</think>". */
  lemma {:induction false} NewBlockFirstPass(a: string, x: string, rest: string)
    requires a == "<thi" && |x| == 1 && rest == "nk>y</think>"
    ensures StripThink(a + (OpenTag + x + CloseTag + rest)) == a + rest
  {
    var block := OpenTag + x + CloseTag + rest;
    TailHasNoOpenTag(rest);
    assert block[0] == '<';
    HeadHasNoOpenTag(a, block);
    ThinkSplice(a, x, rest);
  }

  lemma {:induction false} NewBlockText(a: string, y: string, rest: string)
    requires a == "<thi" && y == "y" && rest == "nk>y</think>"
    ensures a + rest == OpenTag + y + CloseTag
  {
  }

  /**
   * A single pass can assemble a new think block out of the text around
   * a deleted one, so the pass is not idempotent: on
   * "<thi<think>x</think>nk>y</think>" it leaves "<think>y</think>",
   * which the next pass deletes.
   */
  lemma {:induction false} ThinkPassCanFormNewBlock(a: string, x: string, y: string, rest: string)
    requires a == "<thi" && x == "x" && y == "y" && rest == "nk>y</think>"
    ensures StripThink(a + (OpenTag + x + CloseTag + rest)) == OpenTag + y + CloseTag
    ensures StripThink(OpenTag + y + CloseTag) == ""
  {
    NewBlockFirstPass(a, x, rest);
    NewBlockText(a, y, rest);
    ShortThinkBlockRemoved(y, []);
    assert OpenTag + y + CloseTag + [] == OpenTag + y + CloseTag;
  }

  // ---------------------------------------------------------------------
  // Pass 2: /^#{1,6}\s+/gm  ->  ""
  // ---------------------------------------------------------------------

  /** Number of '#' characters at the front of `s`. */
  function HashRun(s: string): (n: nat)
    ensures n <= |s|
    ensures forall i :: 0 <= i < n ==> s[i] == '#'
    ensures n == |s| || s[n] != '#'
  {
    if |s| > 0 && s[0] == '#' then 1 + HashRun(s[1..]) else 0
  }

  /**
   * Length of the match of `#{1,6}\s+` at the front of `s`, or 0: one to
   * six hashes, then the whole whitespace run after them (which may span
   * line breaks, since `\s` matches them).
   */
  function HeadingMarkerLen(s: string): (n: nat)
    ensures n <= |s|
    ensures n > 0 <==> 1 <= HashRun(s) <= 6 && HashRun(s) < |s| && IsWhitespace(s[HashRun(s)])
    ensures n > 0 ==> HashRun(s) < n && (forall i :: HashRun(s) <= i < n ==> IsWhitespace(s[i]))
    ensures n > 0 ==> n == |s| || !IsWhitespace(s[n])
  {
    var k := HashRun(s);
    if 1 <= k <= 6 && k < |s| && IsWhitespace(s[k]) then k + WhitespaceRun(s[k..]) else 0
  }

  /**
   * The heading pass.  `atLineStart` says whether `^` holds at the front
   * of `s`: at the start of the input, or after a line terminator of the
   * input (also one that ended the previous match).
   */
  function StripHeadingsFrom(s: string, atLineStart: bool): (r: string)
    ensures |r| <= |s|
    decreases |s|
  {
    if s == [] then []
    else
      var n := if atLineStart then HeadingMarkerLen(s) else 0;
      if n > 0 then StripHeadingsFrom(s[n..], IsLineTerminator(s[n - 1]))
      else [s[0]] + StripHeadingsFrom(s[1..], IsLineTerminator(s[0]))
  }

  function StripHeadings(s: string): (r: string)
  {
    StripHeadingsFrom(s, true)
  }

  /** The heading pass only deletes: every character it keeps was in its input. */
  lemma {:induction false} StripHeadingsChars(s: string, atLineStart: bool)
    ensures forall c :: c in StripHeadingsFrom(s, atLineStart) ==> c in s
    decreases |s|
  {
    if s != [] {
      var n := if atLineStart then HeadingMarkerLen(s) else 0;
      if n > 0 {
        SuffixChars(s, n);
        StripHeadingsChars(s[n..], IsLineTerminator(s[n - 1]));
      } else {
        SuffixChars(s, 1);
        StripHeadingsChars(s[1..], IsLineTerminator(s[0]));
      }
    }
  }

  /** `^` holds at position `i` of `s`. */
  predicate LineStartAt(s: string, i: nat, atLineStart: bool)
    requires i <= |s|
  {
    if i == 0 then atLineStart else IsLineTerminator(s[i - 1])
  }

  /** No line of `s` starts with a heading marker. */
  predicate NoHeadingMarkerFrom(s: string, atLineStart: bool)
  {
    forall i :: 0 <= i < |s| && LineStartAt(s, i, atLineStart) ==> HeadingMarkerLen(s[i..]) == 0
  }

  /** A string of `k` hashes. */
  function Hashes(k: nat): (h: string)
    ensures |h| == k && forall i :: 0 <= i < k ==> h[i] == '#'
  {
    seq(k, _ => '#')
  }

  lemma {:induction false} HashRunIs(s: string, k: nat)
    requires k < |s| && s[k] != '#'
    requires forall i :: 0 <= i < k ==> s[i] == '#'
    ensures HashRun(s) == k
  {
  }

  lemma {:induction false} WhitespaceRunIs(ws: string, rest: string)
    requires forall i :: 0 <= i < |ws| ==> IsWhitespace(ws[i])
    requires rest == [] || !IsWhitespace(rest[0])
    ensures WhitespaceRun(ws + rest) == |ws|
  {
    var s := ws + rest;
    assert forall i :: 0 <= i < |ws| ==> s[i] == ws[i];
    assert |s| == |ws| || s[|ws|] == rest[0];
  }

  /** One to six hashes and the whitespace run after them form a heading marker. */
  lemma {:induction false} HeadingMarkerMatched(k: nat, ws: string, rest: string)
    requires 1 <= k <= 6
    requires ws != [] && forall i :: 0 <= i < |ws| ==> IsWhitespace(ws[i])
    requires rest == [] || !IsWhitespace(rest[0])
    ensures HeadingMarkerLen(Hashes(k) + ws + rest) == k + |ws|
  {
    var s := Hashes(k) + ws + rest;
    assert s[k] == ws[0];
    HashRunIs(s, k);
    assert s[k..] == ws + rest;
    WhitespaceRunIs(ws, rest);
  }

  /**
   * At a line start, one to six hashes and the whitespace run after them
   * are deleted; `^` then holds again exactly when that run ended in a
   * line terminator.
   */
  lemma {:induction false} HeadingMarkerRemoved(k: nat, ws: string, rest: string)
    requires 1 <= k <= 6
    requires ws != [] && forall i :: 0 <= i < |ws| ==> IsWhitespace(ws[i])
    requires rest == [] || !IsWhitespace(rest[0])
    ensures StripHeadingsFrom(Hashes(k) + ws + rest, true)
         == StripHeadingsFrom(rest, IsLineTerminator(ws[|ws| - 1]))
  {
    var s := Hashes(k) + ws + rest;
    HeadingMarkerMatched(k, ws, rest);
    assert s[k + |ws|..] == rest;
    assert s[k + |ws| - 1] == ws[|ws| - 1];
  }

  /** Seven hashes are not a heading marker: the line is kept. */
  lemma {:induction false} SevenHashesKept(rest: string)
    ensures HeadingMarkerLen(Hashes(7) + " " + rest) == 0
  {
    var s := Hashes(7) + " " + rest;
    assert s[..7] == Hashes(7);
    assert HashRun(s) >= 7;
  }

  /** Text in which no line starts with a heading marker is kept whole. */
  lemma {:induction false} NoHeadingKept(s: string, atLineStart: bool)
    requires NoHeadingMarkerFrom(s, atLineStart)
    ensures StripHeadingsFrom(s, atLineStart) == s
  {
    if s != [] {
      assert LineStartAt(s, 0, atLineStart) ==> HeadingMarkerLen(s[0..]) == 0;
      assert s[0..] == s;
      assert NoHeadingMarkerFrom(s[1..], IsLineTerminator(s[0])) by {
        forall i | 0 <= i < |s[1..]| && LineStartAt(s[1..], i, IsLineTerminator(s[0]))
          ensures HeadingMarkerLen(s[1..][i..]) == 0
        {
          assert LineStartAt(s, i + 1, atLineStart);
          assert s[1..][i..] == s[i + 1..];
        }
      }
      NoHeadingKept(s[1..], IsLineTerminator(s[0]));
    }
  }

  /** Text without '#' has no heading marker. */
  lemma {:induction false} NoHashNoHeading(s: string, atLineStart: bool)
    requires '#' !in s
    ensures NoHeadingMarkerFrom(s, atLineStart)
  {
    forall i | 0 <= i < |s| && LineStartAt(s, i, atLineStart)
      ensures HeadingMarkerLen(s[i..]) == 0
    {
      assert s[i..][0] == s[i];
    }
  }

  // ---------------------------------------------------------------------
  // Passes 3 and 5: /\*\*/g then /\*/g, and /__/g then /_/g  ->  ""
  // ---------------------------------------------------------------------

  /** Deletes every occurrence of `c`; all other characters keep their order. */
  function RemoveChar(s: string, c: char): (r: string)
    ensures c !in r
  {
    if s == [] then []
    else if s[0] == c then RemoveChar(s[1..], c) else [s[0]] + RemoveChar(s[1..], c)
  }

  /** Deleting `c` keeps every other character, as often as it occurs, and adds none. */
  lemma {:induction false} RemoveCharCounts(s: string, c: char)
    ensures |RemoveChar(s, c)| == |s| - multiset(s)[c]
    ensures forall d :: d != c ==> multiset(RemoveChar(s, c))[d] == multiset(s)[d]
    ensures forall d :: d in RemoveChar(s, c) ==> d in s
  {
    if s != [] {
      assert s == [s[0]] + s[1..];
      RemoveCharCounts(s[1..], c);
    }
  }

  /** Deleting characters commutes with concatenation. */
  lemma {:induction false} RemoveCharAppend(a: string, b: string, c: char)
    ensures RemoveChar(a + b, c) == RemoveChar(a, c) + RemoveChar(b, c)
  {
    if a != [] {
      assert (a + b)[0] == a[0];
      assert (a + b)[1..] == a[1..] + b;
      RemoveCharAppend(a[1..], b, c);
      if a[0] == c {
        assert RemoveChar(a + b, c) == RemoveChar(a[1..] + b, c);
      } else {
        assert RemoveChar(a + b, c) == [a[0]] + RemoveChar(a[1..] + b, c);
      }
    } else {
      assert a + b == b;
    }
  }

  /** Deleting a character that does not occur changes nothing. */
  lemma {:induction false} RemoveCharAbsent(s: string, c: char)
    requires c !in s
    ensures RemoveChar(s, c) == s
  {
    if s != [] {
      RemoveCharAbsent(s[1..], c);
    }
  }

  /**
   * Deletes the non-overlapping pairs `cc`, scanning left to right; a
   * `c` that is not followed by another is kept.
   */
  function RemovePairs(s: string, c: char): (r: string)
    ensures s != [] && s[0] != c ==> r != [] && r[0] == s[0]
    ensures forall i :: 0 <= i < |r| - 1 ==> !(r[i] == c && r[i + 1] == c)
  {
    if s == [] then []
    else if |s| >= 2 && s[0] == c && s[1] == c then
      assert s == [c, c] + s[2..];
      RemovePairs(s[2..], c)
    else
      assert s == [s[0]] + s[1..];
      var t := RemovePairs(s[1..], c);
      assert forall i :: 1 <= i < |t| + 1 ==> ([s[0]] + t)[i] == t[i - 1];
      [s[0]] + t
  }

  /** After the pair pass, the single-character pass leaves exactly the text without any `c`. */
  lemma {:induction false} PairsThenSingles(s: string, c: char)
    ensures RemoveChar(RemovePairs(s, c), c) == RemoveChar(s, c)
  {
    if s == [] {
    } else if |s| >= 2 && s[0] == c && s[1] == c {
      PairsThenSingles(s[2..], c);
      assert s[1..][1..] == s[2..];
    } else {
      PairsThenSingles(s[1..], c);
    }
  }

  /** Passes 3 (asterisks) and 5 (underscores): pairs first, then single characters. */
  function StripMarker(s: string, c: char): (r: string)
  {
    RemoveChar(RemovePairs(s, c), c)
  }

  /** The marker passes delete every `c` and nothing else. */
  lemma {:induction false} StripMarkerDeletesAll(s: string, c: char)
    ensures StripMarker(s, c) == RemoveChar(s, c)
    ensures c !in StripMarker(s, c)
    ensures |StripMarker(s, c)| == |s| - multiset(s)[c]
    ensures forall d :: d != c ==> multiset(StripMarker(s, c))[d] == multiset(s)[d]
    ensures forall d :: d in StripMarker(s, c) ==> d in s
  {
    PairsThenSingles(s, c);
    RemoveCharCounts(s, c);
  }

  // ---------------------------------------------------------------------
  // Pass 4: /\[([^\]]+)\]\([^)]+\)/g  ->  "$1"
  // ---------------------------------------------------------------------

  /** The first position at or after `from` holding `c`. */
  function IndexOf(s: string, c: char, from: nat): (r: Option<nat>)
    requires from <= |s|
    ensures r.Some? ==> from <= r.value < |s| && s[r.value] == c
    ensures forall i :: from <= i < |s| && (r.None? || i < r.value) ==> s[i] != c
    decreases |s| - from
  {
    if from == |s| then None
    else if s[from] == c then Some(from)
    else IndexOf(s, c, from + 1)
  }

  /** The shape of one link the regex accepts: a non-empty caption without ']', a non-empty url without ')'. */
  predicate IsLink(caption: string, url: string)
  {
    caption != [] && ']' !in caption && url != [] && ')' !in url
  }

  function LinkText(caption: string, url: string): (r: string)
  {
    "[" + caption + "](" + url + ")"
  }

  /**
   * The match at the front of `s`, if any, as the end of the caption and the
   * length of the whole match.  Because the caption cannot contain ']' and
   * the url cannot contain ')', the greedy character classes stop at
   * the first ']' and the first ')' and no backtracking can help.
   */
  function LinkMatch(s: string): (m: Option<(nat, nat)>)
    ensures m.Some? ==>
      var (j, n) := m.value;
      1 < j && j + 3 < n <= |s|
      && s[0] == '[' && s[j] == ']' && s[j + 1] == '(' && s[n - 1] == ')'
      && IsLink(s[1..j], s[j + 2..n - 1])
      && s[..n] == LinkText(s[1..j], s[j + 2..n - 1])
  {
    if s == [] || s[0] != '[' then None
    else match IndexOf(s, ']', 1)
      case None => None
      case Some(j) =>
        if j == 1 || j + 1 >= |s| || s[j + 1] != '(' then None
        else match IndexOf(s, ')', j + 2)
          case None => None
          case Some(k) =>
            if k == j + 2 then None
            else
              LinkShape(s, j, k);
              Some((j, k + 1))
  }

  /** Brackets and parentheses where the link regex wants them make `s` start with a link. */
  lemma {:induction false} LinkShape(s: string, j: nat, k: nat)
    requires 1 < j && j + 2 < k < |s|
    requires s[0] == '[' && s[j] == ']' && s[j + 1] == '(' && s[k] == ')'
    requires forall i :: 1 <= i < j ==> s[i] != ']'
    requires forall i :: j + 2 <= i < k ==> s[i] != ')'
    ensures IsLink(s[1..j], s[j + 2..k])
    ensures s[..k + 1] == LinkText(s[1..j], s[j + 2..k])
  {
    var c := s[1..j];
    var u := s[j + 2..k];
    assert forall i :: 0 <= i < |c| ==> c[i] == s[i + 1];
    assert forall i :: 0 <= i < |u| ==> u[i] == s[j + 2 + i];
    assert s[..k + 1] == LinkText(c, u);
  }

  /** Replaces every link, scanning left to right, by its caption. */
  function CollapseLinks(s: string): (r: string)
    decreases |s|
  {
    if s == [] then []
    else match LinkMatch(s)
      case Some((j, n)) => s[1..j] + CollapseLinks(s[n..])
      case None => [s[0]] + CollapseLinks(s[1..])
  }

  /** The link pass keeps captions and deletes the rest of each link: every character it keeps was in its input. */
  lemma {:induction false} CollapseLinksChars(s: string)
    ensures forall c :: c in CollapseLinks(s) ==> c in s
    decreases |s|
  {
    if s != [] {
      match LinkMatch(s)
      case Some((j, n)) =>
        SliceChars(s, 1, j);
        SuffixChars(s, n);
        CollapseLinksChars(s[n..]);
      case None =>
        SuffixChars(s, 1);
        CollapseLinksChars(s[1..]);
    }
  }

  /** Every text of link shape is matched in full at the front of a string. */
  lemma {:induction false} LinkMatchComplete(caption: string, url: string, rest: string)
    requires IsLink(caption, url)
    ensures LinkMatch(LinkText(caption, url) + rest) == Some((|caption| + 1, |caption| + |url| + 4))
  {
    var s := LinkText(caption, url) + rest;
    var j := |caption| + 1;
    var k := |caption| + |url| + 3;
    assert s[j] == ']' && s[j + 1] == '(' && s[k] == ')';
    forall i | 1 <= i < j ensures s[i] != ']' {
      assert s[i] == caption[i - 1];
    }
    forall i | j + 2 <= i < k ensures s[i] != ')' {
      assert s[i] == url[i - j - 2];
    }
    assert IndexOf(s, ']', 1) == Some(j);
    assert IndexOf(s, ')', j + 2) == Some(k);
  }

  /** A link is collapsed to its caption and scanning resumes after it. */
  lemma {:induction false} LinkCollapsed(caption: string, url: string, rest: string)
    requires IsLink(caption, url)
    ensures CollapseLinks(LinkText(caption, url) + rest) == caption + CollapseLinks(rest)
  {
    var s := LinkText(caption, url) + rest;
    LinkMatchComplete(caption, url, rest);
    assert s[1..|caption| + 1] == caption;
    assert s[|caption| + |url| + 4..] == rest;
  }

  /** Text without '(' contains no link and is kept whole. */
  lemma {:induction false} NoParenNoLink(s: string)
    requires '(' !in s
    ensures CollapseLinks(s) == s
  {
    if s != [] {
      assert LinkMatch(s).None?;
      NoParenNoLink(s[1..]);
    }
  }

  /** Text without '[' contains no link and is kept whole. */
  lemma {:induction false} NoBracketNoLink(s: string)
    requires '[' !in s
    ensures CollapseLinks(s) == s
  {
    if s != [] {
      NoBracketNoLink(s[1..]);
    }
  }

  /** Text before the first '[' is never part of a link and is kept. */
  lemma {:induction false} LinkPrefixKept(a: string, b: string)
    requires '[' !in a
    ensures CollapseLinks(a + b) == a + CollapseLinks(b)
  {
    if a == [] {
      assert a + b == b;
    } else {
      LinkPrefixStep(a, b);
      LinkPrefixKept(a[1..], b);
      ConsSplit(a, CollapseLinks(b));
    }
  }

  /** Where no '[' opens a link, the first character is kept and scanning moves on. */
  lemma {:induction false} LinkKeepsFirst(s: string)
    requires s != [] && s[0] != '['
    ensures CollapseLinks(s) == [s[0]] + CollapseLinks(s[1..])
  {
  }

  lemma {:induction false} LinkPrefixStep(a: string, b: string)
    requires a != [] && a[0] != '['
    ensures CollapseLinks(a + b) == [a[0]] + CollapseLinks(a[1..] + b)
  {
    assert (a + b)[0] == a[0];
    LinkKeepsFirst(a + b);
    assert (a + b)[1..] == a[1..] + b;
  }

  /** No ']' is directly followed by '(' in `s`: nowhere can a link's `](` be. */
  predicate NoLinkJoint(s: string)
  {
    forall i :: 0 <= i < |s| - 1 ==> !(s[i] == ']' && s[i + 1] == '(')
  }

  /** Text in which no ']' is directly followed by '(' contains no link and is kept whole. */
  lemma {:induction false} NoJointNoLink(s: string)
    requires NoLinkJoint(s)
    ensures CollapseLinks(s) == s
  {
    if s != [] {
      assert LinkMatch(s).None?;
      assert NoLinkJoint(s[1..]) by {
        forall i | 0 <= i < |s[1..]| - 1
          ensures !(s[1..][i] == ']' && s[1..][i + 1] == '(')
        {
          assert s[1..][i] == s[i + 1] && s[1..][i + 1] == s[i + 2];
        }
      }
      NoJointNoLink(s[1..]);
    }
  }

  /** Where every '(' has a backslash in front, no ']' stands there. */
  lemma {:induction false} EscapedNoLinkJoint(s: string)
    requires EscapedIn(s, '(')
    ensures NoLinkJoint(s)
  {
    forall i | 0 <= i < |s| - 1
      ensures !(s[i] == ']' && s[i + 1] == '(')
    {
      if s[i + 1] == '(' {
        assert s[i] == '\\';
      }
    }
  }

  // ---------------------------------------------------------------------
  // Pass 6: /\(/g -> "\\(" then /\)/g -> "\\)"
  // ---------------------------------------------------------------------

  /** Puts a backslash in front of every `c`. */
  function Escape(s: string, c: char): (r: string)
  {
    if s == [] then []
    else if s[0] == c then ['\\', c] + Escape(s[1..], c) else [s[0]] + Escape(s[1..], c)
  }

  /** Escaping adds one backslash per `c` and nothing else. */
  lemma {:induction false} EscapeCounts(s: string, c: char)
    ensures |Escape(s, c)| == |s| + multiset(s)[c]
    ensures c != '\\' ==> multiset(Escape(s, c))['\\'] == multiset(s)['\\'] + multiset(s)[c]
    ensures forall d :: d in Escape(s, c) ==> d in s || d == '\\'
    ensures forall d :: d != '\\' ==> multiset(Escape(s, c))[d] == multiset(s)[d]
  {
    if s != [] {
      assert s == [s[0]] + s[1..];
      EscapeCounts(s[1..], c);
    }
  }

  /** Escaping one character in front of `t`. */
  lemma {:induction false} EscapeCons(x: char, t: string, c: char)
    ensures Escape([x] + t, c) == (if x == c then ['\\', c] else [x]) + Escape(t, c)
  {
    assert ([x] + t)[0] == x;
    assert ([x] + t)[1..] == t;
  }

  /** Escaping commutes with concatenation. */
  lemma {:induction false} EscapeAppend(a: string, b: string, c: char)
    ensures Escape(a + b, c) == Escape(a, c) + Escape(b, c)
  {
    if a != [] {
      var head := if a[0] == c then ['\\', c] else [a[0]];
      assert a == [a[0]] + a[1..];
      assert a + b == [a[0]] + (a[1..] + b);
      EscapeCons(a[0], a[1..], c);
      EscapeCons(a[0], a[1..] + b, c);
      EscapeAppend(a[1..], b, c);
      assert head + (Escape(a[1..], c) + Escape(b, c)) == (head + Escape(a[1..], c)) + Escape(b, c);
    } else {
      assert a + b == b;
    }
  }

  /** Every `x` in `s` has a backslash immediately before it. */
  predicate EscapedIn(s: string, x: char)
  {
    forall i :: 0 <= i < |s| && s[i] == x ==> 0 < i && s[i - 1] == '\\'
  }

  lemma {:induction false} EscapedInAppend(a: string, b: string, x: char)
    requires EscapedIn(a, x) && EscapedIn(b, x)
    ensures EscapedIn(a + b, x)
  {
    forall i | 0 <= i < |a + b| && (a + b)[i] == x
      ensures 0 < i && (a + b)[i - 1] == '\\'
    {
      if i >= |a| {
        assert b[i - |a|] == x;
        assert i - |a| > 0;
        assert (a + b)[i - 1] == b[i - |a| - 1];
      }
    }
  }

  /** The two escaping passes of pass 6, in source order. */
  function EscapeParens(s: string): (r: string)
  {
    Escape(Escape(s, '('), ')')
  }

  /** Reference definition of pass 6 in a single scan: each parenthesis gets one backslash. */
  function EscapeParensOnce(s: string): (r: string)
  {
    if s == [] then []
    else if s[0] == '(' || s[0] == ')' then ['\\', s[0]] + EscapeParensOnce(s[1..])
    else [s[0]] + EscapeParensOnce(s[1..])
  }

  /** The single scan adds one character per parenthesis. */
  lemma {:induction false} EscapeOnceLength(s: string)
    ensures |EscapeParensOnce(s)| == |s| + multiset(s)['('] + multiset(s)[')']
  {
    if s != [] {
      assert s == [s[0]] + s[1..];
      EscapeOnceLength(s[1..]);
    }
  }

  /** The two passes escape exactly as the single scan does. */
  lemma {:induction false} EscapeParensIsOnePass(s: string)
    ensures EscapeParens(s) == EscapeParensOnce(s)
  {
    if s != [] {
      EscapeParensIsOnePass(s[1..]);
      var head := if s[0] == '(' then ['\\', '('] else [s[0]];
      assert Escape(s, '(') == head + Escape(s[1..], '(');
      EscapeAppend(head, Escape(s[1..], '('), ')');
    }
  }

  /** After pass 6 every parenthesis is preceded by a backslash. */
  lemma {:induction false} EscapeParensEscapes(s: string)
    ensures EscapedIn(EscapeParens(s), '(') && EscapedIn(EscapeParens(s), ')')
  {
    EscapeParensIsOnePass(s);
    EscapeOnceEscapes(s);
  }

  lemma {:induction false} EscapeOnceEscapes(s: string)
    ensures EscapedIn(EscapeParensOnce(s), '(') && EscapedIn(EscapeParensOnce(s), ')')
  {
    if s != [] {
      EscapeOnceEscapes(s[1..]);
      var head := if s[0] == '(' || s[0] == ')' then ['\\', s[0]] else [s[0]];
      assert EscapeParensOnce(s) == head + EscapeParensOnce(s[1..]);
      EscapedInAppend(head, EscapeParensOnce(s[1..]), '(');
      EscapedInAppend(head, EscapeParensOnce(s[1..]), ')');
    }
  }

  /** Removes the backslash in front of each parenthesis, scanning left to right. */
  function UnescapeParens(s: string): (r: string)
    ensures |r| <= |s|
  {
    if s == [] then []
    else if |s| >= 2 && s[0] == '\\' && (s[1] == '(' || s[1] == ')') then [s[1]] + UnescapeParens(s[2..])
    else [s[0]] + UnescapeParens(s[1..])
  }

  /** Unescaping undoes pass 6: the escaping loses no information. */
  lemma {:induction false} UnescapeEscapeParens(s: string)
    ensures UnescapeParens(EscapeParens(s)) == s
  {
    EscapeParensIsOnePass(s);
    UnescapeEscapeOnce(s);
  }

  lemma {:induction false} UnescapeEscapeOnce(s: string)
    ensures UnescapeParens(EscapeParensOnce(s)) == s
  {
    if s != [] {
      UnescapeEscapeOnce(s[1..]);
      var e := EscapeParensOnce(s[1..]);
      if s[0] == '(' || s[0] == ')' {
        assert (['\\', s[0]] + e)[2..] == e;
      } else if s[0] == '\\' {
        assert e != [] ==> e[0] != '(' && e[0] != ')';
        assert (['\\'] + e)[1..] == e;
      } else {
        assert (['\\'] + e)[1..] == e;
      }
    }
  }

  // ---------------------------------------------------------------------
  // The whole sanitiser
  // ---------------------------------------------------------------------

  /** The text after the five deleting passes, before escaping. */
  function Deleted(s: string): (r: string)
  {
    var s1 := StripThink(s);
    var s2 := StripHeadings(s1);
    var s3 := StripMarker(s2, '*');
    var s4 := CollapseLinks(s3);
    StripMarker(s4, '_')
  }

  /** `cleanResponse`: the seven passes in source order; passes 1 to 5 delete, 6 escapes, 7 trims. */
  function CleanResponse(s: string): (r: string)
  {
    Trim(EscapeParens(Deleted(s)))
  }

  /**
   * The deleting passes keep no '*' and no '_', and every character they
   * keep was in the input.
   */
  lemma {:induction false} DeletedChars(s: string)
    ensures '*' !in Deleted(s) && '_' !in Deleted(s)
    ensures forall d :: d in Deleted(s) ==> d in s
  {
    StripThinkChars(s);
    StripHeadingsChars(StripThink(s), true);
    var s2 := StripHeadings(StripThink(s));
    StripMarkerDeletesAll(s2, '*');
    CollapseLinksChars(StripMarker(s2, '*'));
    var s4 := CollapseLinks(StripMarker(s2, '*'));
    StripMarkerDeletesAll(s4, '_');
    assert Deleted(s) == StripMarker(s4, '_');
  }

  /** Pass 6 adds backslashes and nothing else. */
  lemma {:induction false} EscapeParensChars(t: string)
    ensures forall d :: d in EscapeParens(t) ==> d in t || d == '\\'
  {
    EscapeCounts(t, '(');
    EscapeCounts(Escape(t, '('), ')');
  }

  /** Trimming keeps only characters of its input. */
  lemma {:induction false} TrimChars(t: string)
    ensures forall d :: d in Trim(t) ==> d in t
  {
    SliceChars(t, WhitespaceRun(t), WhitespaceRun(t) + |Trim(t)|);
  }

  /** Every character of the cleaned text was in the input, or is an added backslash. */
  lemma {:induction false} CleanResponseChars(s: string)
    ensures forall d :: d in CleanResponse(s) ==> d in s || d == '\\'
  {
    DeletedChars(s);
    EscapeParensChars(Deleted(s));
    TrimChars(EscapeParens(Deleted(s)));
  }

  /**
   * No asterisk survives: pass 3 deletes them all and no later pass can
   * bring one back, since passes 4, 5 and 7 only keep or delete
   * characters and pass 6 only adds backslashes.
   */
  lemma {:induction false} CleanResponseNoAsterisk(s: string)
    ensures '*' !in CleanResponse(s)
  {
    DeletedChars(s);
    EscapeParensChars(Deleted(s));
    TrimChars(EscapeParens(Deleted(s)));
  }

  /** No underscore survives: pass 5 deletes them all and passes 6 and 7 add none. */
  lemma {:induction false} CleanResponseNoUnderscore(s: string)
    ensures '_' !in CleanResponse(s)
  {
    DeletedChars(s);
    EscapeParensChars(Deleted(s));
    TrimChars(EscapeParens(Deleted(s)));
  }

  /** Trimming only removes whitespace, so it keeps every `x` escaped. */
  lemma {:induction false} TrimKeepsEscaped(s: string, x: char)
    requires !IsWhitespace(x)
    requires EscapedIn(s, x)
    ensures EscapedIn(Trim(s), x)
  {
    var t := Trim(s);
    var a := WhitespaceRun(s);
    if t != [] {
      assert s[a] == t[0];
      if s[a] == x {
        assert 0 < a && s[a - 1] == '\\';
        assert IsWhitespace(s[a - 1]);
      }
    }
    SliceKeepsEscaped(s, a, a + |t|, x);
  }

  /** A slice keeps every `x` escaped, provided it does not start with an `x` whose backslash it cuts off. */
  lemma {:induction false} SliceKeepsEscaped(s: string, a: nat, b: nat, x: char)
    requires a <= b <= |s|
    requires EscapedIn(s, x)
    requires a < b ==> s[a] != x
    ensures EscapedIn(s[a..b], x)
  {
    var t := s[a..b];
    forall i | 0 <= i < |t| && t[i] == x
      ensures 0 < i && t[i - 1] == '\\'
    {
      assert s[a + i] == x;
      assert t[i - 1] == s[a + i - 1];
    }
  }

  /** Every parenthesis of the cleaned text is immediately preceded by a backslash. */
  lemma {:induction false} CleanResponseParensEscaped(s: string)
    ensures EscapedIn(CleanResponse(s), '(')
    ensures EscapedIn(CleanResponse(s), ')')
  {
    var s6 := EscapeParens(Deleted(s));
    EscapeParensEscapes(Deleted(s));
    TrimKeepsEscaped(s6, '(');
    TrimKeepsEscaped(s6, ')');
  }

  /** The cleaned text neither starts nor ends with whitespace. */
  lemma {:induction false} CleanResponseTrimmed(s: string)
    ensures var r := CleanResponse(s); r == [] || (!IsWhitespace(r[0]) && !IsWhitespace(r[|r| - 1]))
  {
    var s6 := EscapeParens(Deleted(s));
    assert CleanResponse(s) == Trim(s6);
  }

  /** Text that none of the seven passes has anything to do with. */
  predicate IsPlain(s: string)
  {
    && NoOpenTag(s)
    && NoHeadingMarkerFrom(s, true)
    && '*' !in s && '_' !in s && '(' !in s && ')' !in s
    && (s == [] || (!IsWhitespace(s[0]) && !IsWhitespace(s[|s| - 1])))
  }

  lemma {:induction false} EscapeAbsent(s: string, c: char)
    requires c !in s
    ensures Escape(s, c) == s
  {
    if s != [] {
      EscapeAbsent(s[1..], c);
    }
  }

  /** On plain text the sanitiser is the identity. */
  lemma {:induction false} CleanResponsePlainIdentity(s: string)
    requires IsPlain(s)
    ensures CleanResponse(s) == s
  {
    NoThinkKept(s);
    NoHeadingKept(s, true);
    StripMarkerDeletesAll(s, '*');
    RemoveCharAbsent(s, '*');
    NoParenNoLink(s);
    StripMarkerDeletesAll(s, '_');
    RemoveCharAbsent(s, '_');
    assert Deleted(s) == s;
    EscapeAbsent(s, '(');
    EscapeAbsent(s, ')');
    assert EscapeParens(s) == s;
    TrimNoSurroundingWhitespace(s);
  }

  /**
   * Cleaning text that has no '<', '#' or '[' only deletes '*' and '_',
   * escapes the parentheses and trims.
   */
  lemma {:induction false} DeletedSimple(s: string)
    requires '<' !in s && '#' !in s && '[' !in s
    ensures Deleted(s) == RemoveChar(RemoveChar(s, '*'), '_')
  {
    NoAngleNoOpenTag(s);
    NoThinkKept(s);
    NoHashNoHeading(s, true);
    NoHeadingKept(s, true);
    StripMarkerDeletesAll(s, '*');
    var s3 := RemoveChar(s, '*');
    NoBracketNoLink(s3);
    StripMarkerDeletesAll(s3, '_');
  }

  /** Escaping keeps the last character of non-empty text. */
  lemma {:induction false} EscapeOnceLast(s: string)
    requires s != []
    ensures var e := EscapeParensOnce(s); e != [] && e[|e| - 1] == s[|s| - 1]
  {
    if |s| > 1 {
      EscapeOnceLast(s[1..]);
    }
  }

  /** Escaping text that does not start or end with whitespace gives text that does not either. */
  lemma {:induction false} EscapeOnceEnds(s: string)
    requires s == [] || (!IsWhitespace(s[0]) && !IsWhitespace(s[|s| - 1]))
    ensures var e := EscapeParensOnce(s); e == [] || (!IsWhitespace(e[0]) && !IsWhitespace(e[|e| - 1]))
  {
    if s != [] {
      EscapeOnceLast(s);
    }
  }

  // ---------------------------------------------------------------------
  // What the deleting passes delete
  // ---------------------------------------------------------------------

  /** The number of characters of `s` other than backslashes. */
  function Others(s: string): (n: int)
  {
    |s| - multiset(s)['\\']
  }

  /**
   * `t` is `s` with characters deleted, counted with multiplicity, and
   * no backslash went unless some other character went too.
   */
  predicate Deletes(s: string, t: string)
  {
    && multiset(t) <= multiset(s)
    && Others(t) <= Others(s)
    && (multiset(t)['\\'] < multiset(s)['\\'] ==> Others(t) < Others(s))
  }

  lemma {:induction false} CountAtMostLength(s: string, c: char)
    ensures multiset(s)[c] <= |s|
    ensures s != [] && s[0] != c ==> multiset(s)[c] < |s|
  {
    if s != [] {
      assert s == [s[0]] + s[1..];
      CountAtMostLength(s[1..], c);
    }
  }

  lemma {:induction false} DeletesTrans(s: string, t: string, u: string)
    requires Deletes(s, t) && Deletes(t, u)
    ensures Deletes(s, u)
  {
  }

  /** The same text in front of both sides keeps a deletion one. */
  lemma {:induction false} DeletesPrefix(a: string, s: string, t: string)
    requires Deletes(s, t)
    ensures Deletes(a + s, a + t)
  {
    assert multiset(a + s) == multiset(a) + multiset(s);
    assert multiset(a + t) == multiset(a) + multiset(t);
  }

  /** Cutting out a piece that starts with a character other than a backslash. */
  lemma {:induction false} DeletesPiece(a: string, m: string, b: string)
    requires m != [] && m[0] != '\\'
    ensures Deletes(a + m + b, a + b)
  {
    CountAtMostLength(m, '\\');
    assert multiset(a + m + b) == multiset(a) + multiset(m) + multiset(b);
    assert multiset(a + b) == multiset(a) + multiset(b);
  }

  /** Cutting off a front that starts with a character other than a backslash. */
  lemma {:induction false} DeletesFront(s: string, n: nat)
    requires 0 < n <= |s| && s[0] != '\\'
    ensures Deletes(s, s[n..])
  {
    DeletesPiece([], s[..n], s[n..]);
    assert [] + s[..n] + s[n..] == s;
    assert [] + s[n..] == s[n..];
  }

  /** Cutting off such a front and then deleting from the rest. */
  lemma {:induction false} DeletesCut(s: string, n: nat, t: string)
    requires 0 < n <= |s| && s[0] != '\\' && Deletes(s[n..], t)
    ensures Deletes(s, t)
  {
    DeletesFront(s, n);
    DeletesTrans(s, s[n..], t);
  }

  /** Keeping the first character and scanning on. */
  lemma {:induction false} DeletesKeepFirst(s: string, t: string)
    requires s != [] && Deletes(s[1..], t)
    ensures Deletes(s, [s[0]] + t)
  {
    DeletesPrefix([s[0]], s[1..], t);
    assert [s[0]] + s[1..] == s;
  }

  /** The think pass only deletes, and each block it deletes starts with '<'. */
  lemma {:induction false} StripThinkDeletes(s: string)
    ensures Deletes(s, StripThink(s))
    decreases |s|
  {
    if s == [] {
    } else if StartsWithCi(s, OpenTag) && FindCi(s, CloseTag, |OpenTag|).Some? {
      var n := FindCi(s, CloseTag, |OpenTag|).value + |CloseTag|;
      assert LowerAscii(s[0]) == '<';
      StripThinkDeletes(s[n..]);
      DeletesCut(s, n, StripThink(s[n..]));
    } else {
      StripThinkDeletes(s[1..]);
      DeletesKeepFirst(s, StripThink(s[1..]));
    }
  }

  /** The heading pass only deletes, and each marker it deletes starts with '#'. */
  lemma {:induction false} StripHeadingsDeletes(s: string, atLineStart: bool)
    ensures Deletes(s, StripHeadingsFrom(s, atLineStart))
    decreases |s|
  {
    if s != [] {
      var n := if atLineStart then HeadingMarkerLen(s) else 0;
      if n > 0 {
        var rest := StripHeadingsFrom(s[n..], IsLineTerminator(s[n - 1]));
        assert StripHeadingsFrom(s, atLineStart) == rest;
        assert s[0] == '#';
        StripHeadingsDeletes(s[n..], IsLineTerminator(s[n - 1]));
        DeletesCut(s, n, rest);
      } else {
        var rest := StripHeadingsFrom(s[1..], IsLineTerminator(s[0]));
        assert StripHeadingsFrom(s, atLineStart) == [s[0]] + rest;
        StripHeadingsDeletes(s[1..], IsLineTerminator(s[0]));
        DeletesKeepFirst(s, rest);
      }
    }
  }

  /** A marker pass deletes its marker and nothing else, so no backslash. */
  lemma {:induction false} StripMarkerDeletes(s: string, c: char)
    requires c != '\\'
    ensures Deletes(s, StripMarker(s, c))
    ensures multiset(StripMarker(s, c))['\\'] == multiset(s)['\\']
  {
    StripMarkerDeletesAll(s, c);
    var t := StripMarker(s, c);
    assert multiset(t)[c] == 0;
    assert multiset(t) <= multiset(s);
  }

  /** The link pass only deletes, and what it deletes of a link starts with '[' and with ']'. */
  lemma {:induction false} CollapseLinksDeletes(s: string)
    ensures Deletes(s, CollapseLinks(s))
    decreases |s|
  {
    if s != [] {
      match LinkMatch(s)
      case Some((j, n)) =>
        var caption := s[1..j];
        var rest := s[n..];
        DeletesFront(s, 1);
        assert s[1..] == caption + s[j..n] + rest;
        DeletesPiece(caption, s[j..n], rest);
        DeletesTrans(s, s[1..], caption + rest);
        CollapseLinksDeletes(rest);
        DeletesPrefix(caption, rest, CollapseLinks(rest));
        DeletesTrans(s, caption + rest, caption + CollapseLinks(rest));
      case None =>
        CollapseLinksDeletes(s[1..]);
        DeletesKeepFirst(s, CollapseLinks(s[1..]));
    }
  }

  /** Passes 1 to 5 together only delete, and never a backslash alone. */
  lemma {:induction false} DeletedDeletes(s: string)
    ensures Deletes(s, Deleted(s))
  {
    var s1 := StripThink(s);
    var s2 := StripHeadings(s1);
    var s3 := StripMarker(s2, '*');
    var s4 := CollapseLinks(s3);
    StripThinkDeletes(s);
    StripHeadingsDeletes(s1, true);
    StripMarkerDeletes(s2, '*');
    CollapseLinksDeletes(s3);
    StripMarkerDeletes(s4, '_');
    DeletesTrans(s, s1, s2);
    DeletesTrans(s, s2, s3);
    DeletesTrans(s, s3, s4);
    DeletesTrans(s, s4, Deleted(s));
  }

  /** Trimming removes whitespace only, so it keeps the count of every other character. */
  lemma {:induction false} TrimCounts(t: string, d: char)
    requires !IsWhitespace(d)
    ensures multiset(Trim(t))[d] == multiset(t)[d]
  {
    TrimStartCounts(t, d);
    TrimEndCounts(TrimStart(t), d);
  }

  /** Removing leading whitespace keeps every other character. */
  lemma {:induction false} TrimStartCounts(s: string, d: char)
    requires !IsWhitespace(d)
    ensures multiset(TrimStart(s))[d] == multiset(s)[d]
  {
    var r := TrimStart(s);
    var k := |s| - |r|;
    var w := s[..k];
    assert s == w + r;
    assert forall i :: 0 <= i < |w| ==> w[i] == s[i];
    WhitespaceLacks(w, d);
    assert multiset(s) == multiset(w) + multiset(r);
  }

  /** A run of whitespace holds no character that is not whitespace. */
  lemma {:induction false} WhitespaceLacks(w: string, d: char)
    requires forall i :: 0 <= i < |w| ==> IsWhitespace(w[i])
    requires !IsWhitespace(d)
    ensures multiset(w)[d] == 0
  {
    assert d !in w;
  }

  /** Removing trailing whitespace keeps every other character. */
  lemma {:induction false} TrimEndCounts(s: string, d: char)
    requires !IsWhitespace(d)
    ensures multiset(TrimEnd(s))[d] == multiset(s)[d]
  {
    var r := TrimEnd(s);
    var w := s[|r|..];
    assert s == r + w;
    assert forall i :: 0 <= i < |w| ==> w[i] == s[|r| + i];
    WhitespaceLacks(w, d);
    assert multiset(s) == multiset(r) + multiset(w);
  }

  /** Pass 6 and the trim keep the parentheses, add a backslash for each, and add nothing else. */
  lemma {:induction false} EscapeTrimCounts(d: string)
    ensures var r := Trim(EscapeParens(d));
            && multiset(r)['('] == multiset(d)['('] && multiset(r)[')'] == multiset(d)[')']
            && multiset(r)['\\'] == multiset(d)['\\'] + multiset(d)['('] + multiset(d)[')']
            && Others(r) <= Others(d)
  {
    var e := EscapeParens(d);
    EscapeParensCounts(d);
    MarksNotWhitespace();
    TrimCounts(e, '(');
    TrimCounts(e, ')');
    TrimCounts(e, '\\');
  }

  lemma {:induction false} MarksNotWhitespace()
    ensures !IsWhitespace('(') && !IsWhitespace(')') && !IsWhitespace('\\')
  {
  }

  /** Pass 6 keeps the parentheses and adds a backslash for each. */
  lemma {:induction false} EscapeParensCounts(d: string)
    ensures var e := EscapeParens(d);
            && multiset(e)['('] == multiset(d)['('] && multiset(e)[')'] == multiset(d)[')']
            && multiset(e)['\\'] == multiset(d)['\\'] + multiset(d)['('] + multiset(d)[')']
            && |e| == |d| + multiset(d)['('] + multiset(d)[')']
  {
    var e1 := Escape(d, '(');
    EscapeCounts(d, '(');
    EscapeCounts(e1, ')');
  }

  /**
   * Cleaning changes every text that holds a parenthesis.  Escaping adds
   * a backslash per parenthesis, so for the result to equal the input
   * passes 1 to 5 would have had to delete as many backslashes; none of
   * them deletes a backslash without deleting some other character too,
   * and escaping and trimming give no other character back.
   */
  lemma {:induction false} CleanChangesParenthesised(c: string)
    requires '(' in c || ')' in c
    ensures CleanResponse(c) != c
  {
    DeletedDeletes(c);
    EscapeTrimCounts(Deleted(c));
    assert multiset(c)['('] + multiset(c)[')'] > 0;
  }

  /** Text with nothing for the deleting passes or the trimming is cleaned by escaping alone. */
  lemma {:induction false} CleanOnlyEscapes(c: string)
    requires '<' !in c && '#' !in c && '*' !in c && '_' !in c && NoLinkJoint(c)
    requires c == [] || (!IsWhitespace(c[0]) && !IsWhitespace(c[|c| - 1]))
    ensures CleanResponse(c) == EscapeParens(c)
  {
    DeletedNothing(c);
    EscapeParensEnds(c);
    TrimNoSurroundingWhitespace(EscapeParens(c));
  }

  /** The deleting passes leave text alone that has no '<', '#', '*' or '_' and no ']' before a '('. */
  lemma {:induction false} DeletedNothing(c: string)
    requires '<' !in c && '#' !in c && '*' !in c && '_' !in c && NoLinkJoint(c)
    ensures Deleted(c) == c
  {
    NoAngleNoOpenTag(c);
    NoThinkKept(c);
    NoHashNoHeading(c, true);
    NoHeadingKept(c, true);
    StripMarkerDeletesAll(c, '*');
    RemoveCharAbsent(c, '*');
    NoJointNoLink(c);
    StripMarkerDeletesAll(c, '_');
    RemoveCharAbsent(c, '_');
  }

  /** Pass 6 on text without whitespace at its ends adds none there. */
  lemma {:induction false} EscapeParensEnds(c: string)
    requires c == [] || (!IsWhitespace(c[0]) && !IsWhitespace(c[|c| - 1]))
    ensures var e := EscapeParens(c); e == [] || (!IsWhitespace(e[0]) && !IsWhitespace(e[|e| - 1]))
  {
    EscapeParensIsOnePass(c);
    EscapeOnceEnds(c);
  }

  /**
   * Cleaning twice escapes the parentheses twice: the second call turns
   * every `\(` into `\\(` (and `\)` into `\\)`), and one unescaping of
   * the result gives back the once-cleaned text.  Links need no
   * restriction: after cleaning, every '(' follows a backslash, so no
   * `](` is left for the link pass.
   */
  lemma {:induction false} CleanTwiceEscapesTwice(s: string)
    requires '<' !in s && '#' !in s
    ensures CleanResponse(CleanResponse(s)) == EscapeParens(CleanResponse(s))
    ensures UnescapeParens(CleanResponse(CleanResponse(s))) == CleanResponse(s)
  {
    var c := CleanResponse(s);
    CleanResponseChars(s);
    CleanResponseNoAsterisk(s);
    CleanResponseNoUnderscore(s);
    CleanResponseTrimmed(s);
    CleanResponseParensEscaped(s);
    EscapedNoLinkJoint(c);
    CleanOnlyEscapes(c);
    UnescapeEscapeParens(c);
  }

  /** When the cleaned text holds a parenthesis, cleaning again changes it: the sanitiser is not idempotent. */
  lemma {:induction false} CleanResponseNotIdempotent(s: string)
    requires '(' in CleanResponse(s) || ')' in CleanResponse(s)
    ensures CleanResponse(CleanResponse(s)) != CleanResponse(s)
  {
    CleanChangesParenthesised(CleanResponse(s));
  }

  lemma {:induction false} EscapeOpenParen(p: string)
    requires p == "("
    ensures EscapeParens(p) == "\\("
  {
    assert EscapeParensOnce(p) == "\\(" by {
      assert p[1..] == [];
      assert EscapeParensOnce(p) == ['\\', '('] + EscapeParensOnce([]);
    }
    EscapeParensIsOnePass(p);
  }

  lemma {:induction false} EscapeEscapedParen(q: string)
    requires q == "\\("
    ensures EscapeParens(q) == "\\\\("
  {
    assert EscapeParensOnce(q) == "\\\\(" by {
      assert q[1..] == "(";
      assert "("[1..] == [];
      assert EscapeParensOnce("(") == ['\\', '('] + EscapeParensOnce([]);
      assert EscapeParensOnce(q) == ['\\'] + EscapeParensOnce("(");
    }
    EscapeParensIsOnePass(q);
  }

  /**
   * The smallest instance: "(" is cleaned to `\(`, and cleaning that
   * again gives `\\(`.
   */
  lemma {:induction false} CleanOpenParenTwice(p: string)
    requires p == "("
    ensures CleanResponse(p) == "\\("
    ensures CleanResponse(CleanResponse(p)) == "\\\\("
  {
    EscapeOpenParen(p);
    CleanOnlyEscapes(p);
    var q := CleanResponse(p);
    EscapeEscapedParen(q);
    CleanOnlyEscapes(q);
  }

  // ---------------------------------------------------------------------
  // Text the passes leave alone
  // ---------------------------------------------------------------------

  /** Text holding none of the characters any pass reacts to. */
  predicate Inert(w: string)
  {
    forall c :: c in w ==> c !in "<#*_[]()"
  }

  /** Text without `c` in front is kept by the deleting scan. */
  lemma {:induction false} RemoveKeep(a: string, b: string, c: char)
    requires c !in a
    ensures RemoveChar(a + b, c) == a + RemoveChar(b, c)
  {
    RemoveCharAppend(a, b, c);
    RemoveCharAbsent(a, c);
  }

  lemma {:induction false} RemoveDrop(b: string, c: char)
    ensures RemoveChar([c] + b, c) == RemoveChar(b, c)
  {
    assert ([c] + b)[1..] == b;
  }

  /** Text without `c` in front is kept by the escaping scan. */
  lemma {:induction false} EscapeKeep(a: string, b: string, c: char)
    requires c !in a
    ensures Escape(a + b, c) == a + Escape(b, c)
  {
    EscapeAppend(a, b, c);
    EscapeAbsent(a, c);
  }

  lemma {:induction false} EscapeHit(b: string, c: char)
    ensures Escape([c] + b, c) == ['\\', c] + Escape(b, c)
  {
    assert ([c] + b)[1..] == b;
  }

  /**
   * Text whose only markup is opening tags without a closing tag, and
   * which does not start or end with whitespace, is kept whole.
   */
  lemma {:induction false} UnclosedOnlyKept(s: string)
    requires NoCloseTag(s)
    requires '#' !in s && '*' !in s && '_' !in s && '[' !in s && '(' !in s && ')' !in s
    requires s == [] || (!IsWhitespace(s[0]) && !IsWhitespace(s[|s| - 1]))
    ensures CleanResponse(s) == s
  {
    UnclosedThinkKept(s);
    NoHashNoHeading(s, true);
    NoHeadingKept(s, true);
    StripMarkerDeletesAll(s, '*');
    RemoveCharAbsent(s, '*');
    NoBracketNoLink(s);
    StripMarkerDeletesAll(s, '_');
    RemoveCharAbsent(s, '_');
    assert Deleted(s) == s;
    EscapeAbsent(s, '(');
    EscapeAbsent(s, ')');
    TrimNoSurroundingWhitespace(s);
  }

  /** Passes 3 to 7 keep trimmed text without '*', '_', '[', '(' and ')'. */
  lemma {:induction false} LaterPassesKeep(t: string)
    requires '*' !in t && '_' !in t && '[' !in t && '(' !in t && ')' !in t
    requires t == [] || (!IsWhitespace(t[0]) && !IsWhitespace(t[|t| - 1]))
    ensures StripMarker(CollapseLinks(StripMarker(t, '*')), '_') == t
    ensures Trim(EscapeParens(t)) == t
  {
    StripMarkerDeletesAll(t, '*');
    RemoveCharAbsent(t, '*');
    NoBracketNoLink(t);
    StripMarkerDeletesAll(t, '_');
    RemoveCharAbsent(t, '_');
    EscapeAbsent(t, '(');
    EscapeAbsent(t, ')');
    TrimNoSurroundingWhitespace(t);
  }

  /** Text that the later passes leave alone is what the first two passes made of the input. */
  lemma {:induction false} CleanAfterFirstPasses(s: string, t: string)
    requires StripHeadings(StripThink(s)) == t
    requires '*' !in t && '_' !in t && '[' !in t && '(' !in t && ')' !in t
    requires t == [] || (!IsWhitespace(t[0]) && !IsWhitespace(t[|t| - 1]))
    ensures CleanResponse(s) == t
  {
    LaterPassesKeep(t);
  }

  // ---------------------------------------------------------------------
  // Worked examples
  // ---------------------------------------------------------------------

  /**
   * The shape of the worked example: `**word** [caption](url) _i_ (q)`,
   * nested to the right.
   */
  function SampleBody(word: string, caption: string, url: string, i: string, q: string): (r: string)
  {
    "*" + ("*" + (word + ("*" + ("*" + (" " + (LinkText(caption, url) + SampleTail(i, q)))))))
  }

  /** ` _i_ (q)` */
  function SampleTail(i: string, q: string): (r: string)
  {
    " " + ("_" + (i + ("_" + (" " + ("(" + (q + ")"))))))
  }

  /** What the sanitiser makes of it: `word caption i \(q\)`. */
  function SampleCleaned(word: string, caption: string, i: string, q: string): (r: string)
  {
    word + (" " + (caption + (" " + (i + (" " + ("\\(" + (q + "\\)")))))))
  }

  predicate SampleParts(word: string, caption: string, url: string, i: string, q: string)
  {
    && Inert(word) && Inert(caption) && Inert(url) && Inert(i) && Inert(q)
    && word != [] && !IsWhitespace(word[0]) && caption != [] && url != []
  }

  lemma {:induction false} SampleThink(x: string, word: string, caption: string, url: string, i: string, q: string)
    requires |x| == 1 && SampleParts(word, caption, url, i, q)
    ensures StripThink(OpenTag + x + CloseTag + SampleBody(word, caption, url, i, q)) == SampleBody(word, caption, url, i, q)
    ensures StripHeadings(SampleBody(word, caption, url, i, q)) == SampleBody(word, caption, url, i, q)
  {
    var body := SampleBody(word, caption, url, i, q);
    assert '<' !in body && '#' !in body;
    ShortThinkBlockRemoved(x, body);
    NoAngleNoOpenTag(body);
    NoThinkKept(body);
    NoHashNoHeading(body, true);
    NoHeadingKept(body, true);
  }

  lemma {:induction false} SampleAsterisks(word: string, caption: string, url: string, i: string, q: string)
    requires SampleParts(word, caption, url, i, q)
    ensures StripMarker(SampleBody(word, caption, url, i, q), '*')
         == word + (" " + (LinkText(caption, url) + SampleTail(i, q)))
  {
    var rest := " " + (LinkText(caption, url) + SampleTail(i, q));
    assert '*' !in rest;
    RemoveDrop("*" + (word + ("*" + ("*" + rest))), '*');
    RemoveDrop(word + ("*" + ("*" + rest)), '*');
    RemoveKeep(word, "*" + ("*" + rest), '*');
    RemoveDrop("*" + rest, '*');
    RemoveDrop(rest, '*');
    RemoveCharAbsent(rest, '*');
    StripMarkerDeletesAll(SampleBody(word, caption, url, i, q), '*');
  }

  lemma {:induction false} SampleLinks(word: string, caption: string, url: string, i: string, q: string)
    requires SampleParts(word, caption, url, i, q)
    ensures CollapseLinks(word + (" " + (LinkText(caption, url) + SampleTail(i, q))))
         == word + (" " + (caption + SampleTail(i, q)))
  {
    var tail := SampleTail(i, q);
    assert '[' !in word && '[' !in tail && IsLink(caption, url);
    LinkPrefixKept(word, " " + (LinkText(caption, url) + tail));
    LinkPrefixKept(" ", LinkText(caption, url) + tail);
    LinkCollapsed(caption, url, tail);
    NoBracketNoLink(tail);
  }

  lemma {:induction false} SampleUnderscores(word: string, caption: string, i: string, q: string)
    requires Inert(word) && Inert(caption) && Inert(i) && Inert(q)
    ensures StripMarker(word + (" " + (caption + SampleTail(i, q))), '_')
         == word + (" " + (caption + (" " + (i + (" " + ("(" + (q + ")")))))))
  {
    var close := " " + ("(" + (q + ")"));
    assert '_' !in word && '_' !in caption && '_' !in i && '_' !in close;
    RemoveKeep(word, " " + (caption + SampleTail(i, q)), '_');
    RemoveKeep(" ", caption + SampleTail(i, q), '_');
    RemoveKeep(caption, SampleTail(i, q), '_');
    RemoveKeep(" ", "_" + (i + ("_" + close)), '_');
    RemoveDrop(i + ("_" + close), '_');
    RemoveKeep(i, "_" + close, '_');
    RemoveDrop(close, '_');
    RemoveCharAbsent(close, '_');
    StripMarkerDeletesAll(word + (" " + (caption + SampleTail(i, q))), '_');
  }

  lemma {:induction false} SampleEscapeOpen(word: string, caption: string, i: string, q: string)
    requires Inert(word) && Inert(caption) && Inert(i) && Inert(q)
    ensures Escape(word + (" " + (caption + (" " + (i + (" " + ("(" + (q + ")"))))))), '(')
         == word + (" " + (caption + (" " + (i + (" " + ("\\(" + (q + ")")))))))
  {
    assert '(' !in word && '(' !in caption && '(' !in i && '(' !in q + ")";
    EscapeKeep(word, " " + (caption + (" " + (i + (" " + ("(" + (q + ")")))))), '(');
    EscapeKeep(" ", caption + (" " + (i + (" " + ("(" + (q + ")"))))), '(');
    EscapeKeep(caption, " " + (i + (" " + ("(" + (q + ")")))), '(');
    EscapeKeep(" ", i + (" " + ("(" + (q + ")"))), '(');
    EscapeKeep(i, " " + ("(" + (q + ")")), '(');
    EscapeKeep(" ", "(" + (q + ")"), '(');
    EscapeHit(q + ")", '(');
    EscapeAbsent(q + ")", '(');
  }

  lemma {:induction false} SampleEscapeClose(word: string, caption: string, i: string, q: string)
    requires Inert(word) && Inert(caption) && Inert(i) && Inert(q)
    ensures Escape(word + (" " + (caption + (" " + (i + (" " + ("\\(" + (q + ")"))))))), ')')
         == SampleCleaned(word, caption, i, q)
  {
    assert ')' !in word && ')' !in caption && ')' !in i && ')' !in q;
    EscapeKeep(word, " " + (caption + (" " + (i + (" " + ("\\(" + (q + ")")))))), ')');
    EscapeKeep(" ", caption + (" " + (i + (" " + ("\\(" + (q + ")"))))), ')');
    EscapeKeep(caption, " " + (i + (" " + ("\\(" + (q + ")")))), ')');
    EscapeKeep(" ", i + (" " + ("\\(" + (q + ")"))), ')');
    EscapeKeep(i, " " + ("\\(" + (q + ")")), ')');
    EscapeKeep(" ", "\\(" + (q + ")"), ')');
    SampleEscapeCloseTail(q);
  }

  lemma {:induction false} SampleEscapeCloseTail(q: string)
    requires ')' !in q
    ensures Escape("\\(" + (q + ")"), ')') == "\\(" + (q + "\\)")
  {
    EscapeKeep("\\(", q + ")", ')');
    EscapeKeep(q, ")", ')');
    assert Escape(")", ')') == "\\)" by {
      assert ")" == [')'] + [];
      EscapeHit([], ')');
    }
  }

  lemma {:induction false} SampleTrim(word: string, caption: string, i: string, q: string)
    requires word != [] && !IsWhitespace(word[0])
    ensures Trim(SampleCleaned(word, caption, i, q)) == SampleCleaned(word, caption, i, q)
  {
    var r := SampleCleaned(word, caption, i, q);
    assert r[0] == word[0] && r[|r| - 1] == ')';
    TrimNoSurroundingWhitespace(r);
  }

  /**
   * A worked example, and every text of its shape: a think block,
   * a bold word, a link, a word in underscores and a word in
   * parentheses.  The block, the markers and the link markup go; the
   * word between the underscores stays; the parentheses are escaped.
   * With x, word, caption, url, i, q = "x", "bold", "a", "http://b",
   * "i", "q" the input is `<think>x</think>**bold** [a](http://b) _i_ (q)`
   * and the result `bold a i \(q\)`.
   */
  lemma {:induction false} CleanResponseSample(x: string, word: string, caption: string, url: string, i: string, q: string)
    requires |x| == 1 && SampleParts(word, caption, url, i, q)
    ensures CleanResponse(OpenTag + x + CloseTag + SampleBody(word, caption, url, i, q)) == SampleCleaned(word, caption, i, q)
  {
    var s := OpenTag + x + CloseTag + SampleBody(word, caption, url, i, q);
    SampleThink(x, word, caption, url, i, q);
    SampleAsterisks(word, caption, url, i, q);
    SampleLinks(word, caption, url, i, q);
    SampleUnderscores(word, caption, i, q);
    var v := word + (" " + (caption + (" " + (i + (" " + ("(" + (q + ")")))))));
    assert Deleted(s) == v;
    SampleEscapeOpen(word, caption, i, q);
    SampleEscapeClose(word, caption, i, q);
    SampleTrim(word, caption, i, q);
  }

  lemma {:induction false} UnclosedExampleHasNoCloseTag(s: string)
    requires s == "<think>a"
    ensures NoCloseTag(s)
  {
    forall j | 0 <= j < |s|
      ensures !StartsWithCi(s[j..], CloseTag)
    {
      assert j == 0 ==> s[j..][1] == 't';
    }
  }

  /** An opening tag with no closing tag after it survives cleaning. */
  lemma {:induction false} UnclosedThinkSurvives(s: string)
    requires s == "<think>a"
    ensures CleanResponse(s) == s
  {
    UnclosedExampleHasNoCloseTag(s);
    UnclosedOnlyKept(s);
  }

  /**
   * Deleting a heading marker can leave another '#' at the front of the
   * line, and that one stays: "# # x" is cleaned to "# x".
   */
  lemma {:induction false} NestedHeadingSurvives(s: string, t: string)
    requires s == "# # x" && t == "# x"
    ensures CleanResponse(s) == t
  {
    NestedHeadingFirstPasses(s, t);
    assert '*' !in t && '_' !in t && '[' !in t && '(' !in t && ')' !in t;
    assert !IsWhitespace(t[0]) && !IsWhitespace(t[|t| - 1]);
    CleanAfterFirstPasses(s, t);
  }

  lemma {:induction false} NestedHeadingFirstPasses(s: string, t: string)
    requires s == "# # x" && t == "# x"
    ensures StripHeadings(StripThink(s)) == t
  {
    assert Hashes(1) == "#";
    assert s == Hashes(1) + " " + t;
    NoAngleNoOpenTag(s);
    NoThinkKept(s);
    HeadingMarkerRemoved(1, " ", t);
    NestedHeadingTail(t);
  }

  lemma {:induction false} NestedHeadingTail(t: string)
    requires t == "# x"
    ensures StripHeadingsFrom(t, false) == t
  {
    assert !LineStartAt(t, 0, false) && !LineStartAt(t, 1, false) && !LineStartAt(t, 2, false);
    assert NoHeadingMarkerFrom(t, false);
    NoHeadingKept(t, false);
  }

  /** A '#' that does not start a line survives cleaning. */
  lemma {:induction false} MidLineHashSurvives(s: string)
    requires s == "a#"
    ensures CleanResponse(s) == s
  {
    NoAngleNoOpenTag(s);
    assert HashRun(s) == 0;
    assert s[0..] == s;
    assert !LineStartAt(s, 1, true);
    assert NoHeadingMarkerFrom(s, true);
    CleanResponsePlainIdentity(s);
  }
}
