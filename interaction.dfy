/**
 * The interactive loop of `main`: each round fetches the digest, asks
 * the language model for a summary, a draft and a proofread, cleans the
 * text twice, shows it and reads one answer.  'p' publishes the shown
 * text and ends the loop, 'q' ends it, anything else starts a new round.
 *
 * The feed, the clock and the language model are outside the model:
 * they are the functions of a `Services` value, indexed by the round.
 * The user's answers are a finite sequence; when it runs out the loop
 * stops waiting, having published nothing in that round.
 */
module Interaction {
  import opened Strings
  import Feed
  import Sanitizer

  /** `askUser`'s normalisation: trimmed, then lower-cased (ASCII letters only). */
  function NormalizeAnswer(answer: string): (r: string)
    ensures |r| == |Trim(answer)|
  {
    LowerAsciiString(Trim(answer))
  }

  datatype Decision = Publish | Quit | Regenerate

  /** The branches of `main` on the normalised answer. */
  function Choose(choice: string): (d: Decision)
  {
    if choice == "p" then Publish
    else if choice == "q" then Quit
    else Regenerate
  }

  /**
   * How an answer is meant to be read: once trimmed, the single letter p
   * in either case publishes, q in either case quits, and everything
   * else, the empty answer included, regenerates.
   */
  function Decide(answer: string): (d: Decision)
  {
    var t := Trim(answer);
    if t == "p" || t == "P" then Publish
    else if t == "q" || t == "Q" then Quit
    else Regenerate
  }

  lemma {:induction false} LowerToLetter(t: string, letter: char, upper: char)
    requires 'a' <= letter <= 'z' && upper as int == letter as int - 32
    ensures LowerAsciiString(t) == [letter] <==> t == [letter] || t == [upper]
  {
    if LowerAsciiString(t) == [letter] {
      assert t[0] == letter || t[0] == upper;
    }
  }

  /** Trimming, lower-casing and comparing with "p" and "q" reads every answer as intended. */
  lemma {:induction false} ChooseNormalized(answer: string)
    ensures Choose(NormalizeAnswer(answer)) == Decide(answer)
  {
    LowerToLetter(Trim(answer), 'p', 'P');
    LowerToLetter(Trim(answer), 'q', 'Q');
  }

  /** The empty answer regenerates. */
  lemma {:induction false} EmptyAnswerRegenerates(empty: string)
    requires empty == ""
    ensures Choose(NormalizeAnswer(empty)) == Regenerate
  {
    ChooseNormalized(empty);
  }

  /** An answer other than p and q, such as 'r', regenerates. */
  lemma {:induction false} OtherAnswerRegenerates(r: string)
    requires r == "r"
    ensures Choose(NormalizeAnswer(r)) == Regenerate
  {
    ChooseNormalized(r);
    TrimNoSurroundingWhitespace(r);
  }

  lemma {:induction false} TrimStartPadded(padded: string)
    requires padded == " P\n"
    ensures TrimStart(padded) == padded[1..]
  {
    assert IsWhitespace(padded[0]);
    assert !IsWhitespace(padded[1..][0]);
  }

  lemma {:induction false} TrimEndPadded(t: string)
    requires t == "P\n"
    ensures TrimEnd(t) == t[..1]
  {
    assert IsWhitespace(t[1]);
    assert !IsWhitespace(t[..1][0]);
  }

  /** Surrounding whitespace and case do not matter: " P\n" publishes. */
  lemma {:induction false} PaddedUpperPublishes(padded: string)
    requires padded == " P\n"
    ensures Choose(NormalizeAnswer(padded)) == Publish
  {
    ChooseNormalized(padded);
    TrimStartPadded(padded);
    TrimEndPadded(padded[1..]);
    assert Trim(padded) == padded[1..][..1];
    assert padded[1..][..1] == "P";
  }

  /** The three language-model calls of one round. */
  datatype Stage = Summarize | Draft | Proofread

  /**
   * The world outside the model, per round: the parsed feed entries, the
   * cutoff (twelve hours before the clock at that moment), and the
   * language model's reply to the given stage and input.
   */
  datatype Services = Services(
    feed: nat -> seq<Feed.Entry>,
    cutoff: nat -> int,
    complete: (nat, Stage, string) -> string)

  /** The post shown to the user in round `k`. */
  function RoundPost(svc: Services, k: nat): (post: string)
  {
    var digest := Feed.RecentDigest(svc.feed(k), svc.cutoff(k));
    var summary := svc.complete(k, Summarize, digest);
    var draft := svc.complete(k, Draft, summary);
    var proofread := svc.complete(k, Proofread, Sanitizer.CleanResponse(draft));
    Sanitizer.CleanResponse(proofread)
  }

  /** Whatever the language model answers, a shown post carries no markdown emphasis and escapes its parentheses. */
  lemma {:induction false} RoundPostSanitized(svc: Services, k: nat)
    ensures '*' !in RoundPost(svc, k) && '_' !in RoundPost(svc, k)
    ensures Sanitizer.EscapedIn(RoundPost(svc, k), '(') && Sanitizer.EscapedIn(RoundPost(svc, k), ')')
    ensures var p := RoundPost(svc, k); p == [] || (!IsWhitespace(p[0]) && !IsWhitespace(p[|p| - 1]))
  {
    var digest := Feed.RecentDigest(svc.feed(k), svc.cutoff(k));
    var summary := svc.complete(k, Summarize, digest);
    var draft := svc.complete(k, Draft, summary);
    var proofread := svc.complete(k, Proofread, Sanitizer.CleanResponse(draft));
    Sanitizer.CleanResponseNoAsterisk(proofread);
    Sanitizer.CleanResponseNoUnderscore(proofread);
    Sanitizer.CleanResponseParensEscaped(proofread);
    Sanitizer.CleanResponseTrimmed(proofread);
  }

  /**
   * One round's pipeline: digest, summary, draft, clean, proofread, clean.
   * Its result is the post of round `round`, the next of the posts shown
   * (by `PostsAreRounds`, the `RoundPost` of that round); whatever the
   * language model replied, it has no emphasis markers, its parentheses
   * are escaped and it is trimmed.
   */
  method GeneratePost(svc: Services, round: nat) returns (clean: string)
    ensures Posts(svc, round) + [clean] == Posts(svc, round + 1)
    ensures '*' !in clean && '_' !in clean
    ensures Sanitizer.EscapedIn(clean, '(') && Sanitizer.EscapedIn(clean, ')')
    ensures clean == [] || (!IsWhitespace(clean[0]) && !IsWhitespace(clean[|clean| - 1]))
  {
    var rssFeed := Feed.RecentDigest(svc.feed(round), svc.cutoff(round));
    var summary := svc.complete(round, Summarize, rssFeed);
    var postContent := svc.complete(round, Draft, summary);
    clean := Sanitizer.CleanResponse(postContent);
    var proofread := svc.complete(round, Proofread, clean);
    clean := Sanitizer.CleanResponse(proofread);
    Sanitizer.CleanResponseNoAsterisk(proofread);
    Sanitizer.CleanResponseNoUnderscore(proofread);
    Sanitizer.CleanResponseParensEscaped(proofread);
    Sanitizer.CleanResponseTrimmed(proofread);
    PostsStep(svc, round);
  }

  /**
   * `askUser`: the answer read for the prompt, trimmed and lower-cased;
   * comparing it with "p" and "q" decides as intended.
   */
  method AskUser(answer: string) returns (choice: string)
    ensures choice == NormalizeAnswer(answer)
    ensures Choose(choice) == Decide(answer)
  {
    choice := NormalizeAnswer(answer);
    ChooseNormalized(answer);
  }

  /**
   * The position of the first answer, at or after `from`, that publishes
   * or quits; `|answers|` when there is none.
   */
  function FirstDecisive(answers: seq<string>, from: nat): (i: nat)
    requires from <= |answers|
    decreases |answers| - from
  {
    if from == |answers| then from
    else if Decide(answers[from]) != Regenerate then from
    else FirstDecisive(answers, from + 1)
  }

  /** Every answer before the first decisive one regenerates, and that one does not. */
  lemma {:induction false} FirstDecisiveIsFirst(answers: seq<string>, from: nat)
    requires from <= |answers|
    ensures from <= FirstDecisive(answers, from) <= |answers|
    ensures forall k :: from <= k < FirstDecisive(answers, from) ==> Decide(answers[k]) == Regenerate
    ensures FirstDecisive(answers, from) < |answers| ==> Decide(answers[FirstDecisive(answers, from)]) != Regenerate
    decreases |answers| - from
  {
    if from < |answers| && Decide(answers[from]) == Regenerate {
      FirstDecisiveIsFirst(answers, from + 1);
    }
  }

  /** Answers after the first decisive one are never consulted. */
  lemma {:induction false} FirstDecisiveIgnoresLater(answers: seq<string>, later: seq<string>, from: nat)
    requires from <= |answers|
    requires FirstDecisive(answers, from) < |answers|
    ensures FirstDecisive(answers + later, from) == FirstDecisive(answers, from)
    decreases |answers| - from
  {
    assert (answers + later)[from] == answers[from];
    if Decide(answers[from]) == Regenerate {
      FirstDecisiveIgnoresLater(answers, later, from + 1);
    }
  }

  /** One step of the search for the first decisive answer. */
  lemma {:induction false} FirstDecisiveStep(answers: seq<string>, from: nat)
    requires from < |answers|
    ensures Decide(answers[from]) != Regenerate ==> FirstDecisive(answers, from) == from
    ensures Decide(answers[from]) == Regenerate ==> FirstDecisive(answers, from) == FirstDecisive(answers, from + 1)
  {
  }

  /** The values of `f` at 0, 1, ..., n - 1, in order. */
  function Prefix<T>(f: nat -> T, n: nat): (r: seq<T>)
    ensures |r| == n
  {
    if n == 0 then [] else Prefix(f, n - 1) + [f(n - 1)]
  }

  lemma {:induction false} PrefixAt<T>(f: nat -> T, n: nat)
    ensures forall k :: 0 <= k < n ==> Prefix(f, n)[k] == f(k)
  {
    if n > 0 {
      PrefixAt(f, n - 1);
    }
  }

  /** The posts of the first `n` rounds, in order. */
  function Posts(svc: Services, n: nat): (r: seq<string>)
  {
    Prefix(k => RoundPost(svc, k), n)
  }

  /** One more round shows one more post. */
  lemma {:induction false} PostsStep(svc: Services, n: nat)
    ensures Posts(svc, n + 1) == Posts(svc, n) + [RoundPost(svc, n)]
  {
  }

  /** Round `k`'s post is the `k`-th of the posts shown. */
  lemma {:induction false} PostsAreRounds(svc: Services, n: nat)
    ensures |Posts(svc, n)| == n
    ensures forall k :: 0 <= k < n ==> Posts(svc, n)[k] == RoundPost(svc, k)
  {
    PrefixAt(k => RoundPost(svc, k), n);
  }

  /**
   * `main`.  Returns the posts shown, one per round, the posts published,
   * and whether a decisive answer ended the loop (false when the answers
   * ran out while a post was waiting for one).  A round runs for every
   * answer up to and including the first decisive one; the post of that
   * round is published exactly when the answer is 'p'.
   */
  method RunMain(svc: Services, answers: seq<string>) returns (shown: seq<string>, published: seq<string>, decided: bool)
    ensures |shown| == FirstDecisive(answers, 0) + 1
    ensures shown == Posts(svc, |shown|)
    ensures decided <==> FirstDecisive(answers, 0) < |answers|
    ensures decided && Decide(answers[FirstDecisive(answers, 0)]) == Publish ==> published == [shown[|shown| - 1]]
    ensures !(decided && Decide(answers[FirstDecisive(answers, 0)]) == Publish) ==> published == []
  {
    shown := [];
    published := [];
    decided := false;
    var regenerate := true;
    var round: nat := 0;
    while regenerate
      invariant round <= |answers|
      invariant regenerate ==> Searching(svc, answers, round, shown, published, decided)
      invariant !regenerate ==> Finished(svc, answers, shown, published, decided)
      decreases |answers| - round + (if regenerate then 1 else 0)
    {
      var clean := GeneratePost(svc, round);
      shown := shown + [clean];
      if round == |answers| {
        // No answer arrives: the prompt is left waiting and nothing is published.
        StopWithoutAnswer(svc, answers, round, shown);
        regenerate := false;
      } else {
        var choice := AskUser(answers[round]);
        if choice == "p" {
          published := published + [clean];
          decided := true;
          StopOnAnswer(svc, answers, round, shown, published);
          regenerate := false;
        } else if choice == "q" {
          decided := true;
          StopOnAnswer(svc, answers, round, shown, published);
          regenerate := false;
        } else {
          NextRound(svc, answers, round, shown);
          round := round + 1;
        }
      }
    }
    assert Finished(svc, answers, shown, published, decided);
  }

  /** The answers ran out after round `round`'s post was shown. */
  lemma {:induction false} StopWithoutAnswer(svc: Services, answers: seq<string>, round: nat, shown: seq<string>)
    requires round == |answers|
    requires FirstDecisive(answers, 0) == FirstDecisive(answers, round)
    requires shown == Posts(svc, round + 1)
    ensures Finished(svc, answers, shown, [], false)
  {
  }

  /** Round `round`'s answer publishes or quits. */
  lemma {:induction false} StopOnAnswer(svc: Services, answers: seq<string>, round: nat, shown: seq<string>, published: seq<string>)
    requires round < |answers| && Decide(answers[round]) != Regenerate
    requires FirstDecisive(answers, 0) == FirstDecisive(answers, round)
    requires shown == Posts(svc, round + 1)
    requires published == if Decide(answers[round]) == Publish then [shown[round]] else []
    ensures Finished(svc, answers, shown, published, true)
  {
    FirstDecisiveStep(answers, round);
  }

  /** Round `round`'s answer regenerates: the search goes on from the next answer. */
  lemma {:induction false} NextRound(svc: Services, answers: seq<string>, round: nat, shown: seq<string>)
    requires round < |answers| && Decide(answers[round]) == Regenerate
    requires FirstDecisive(answers, 0) == FirstDecisive(answers, round)
    requires shown == Posts(svc, round + 1)
    ensures Searching(svc, answers, round + 1, shown, [], false)
  {
    FirstDecisiveStep(answers, round);
  }

  /** While the loop goes on: a post per round so far, none published, and no decisive answer yet. */
  predicate Searching(svc: Services, answers: seq<string>, round: nat, shown: seq<string>, published: seq<string>, decided: bool)
  {
    round == |shown| && round <= |answers|
    && shown == Posts(svc, round)
    && FirstDecisive(answers, 0) == FirstDecisive(answers, round)
    && published == [] && !decided
  }

  /** When the loop has ended: what `RunMain` promises. */
  predicate Finished(svc: Services, answers: seq<string>, shown: seq<string>, published: seq<string>, decided: bool)
  {
    && |shown| == FirstDecisive(answers, 0) + 1
    && shown == Posts(svc, |shown|)
    && (decided <==> FirstDecisive(answers, 0) < |answers|)
    && (decided && Decide(answers[FirstDecisive(answers, 0)]) == Publish ==> published == [shown[|shown| - 1]])
    && (!(decided && Decide(answers[FirstDecisive(answers, 0)]) == Publish) ==> published == [])
  }
}
