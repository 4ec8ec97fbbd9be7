/**
 Answer normalisation and the correctness verdict of the scored variant. The
 canonical answer is lower-cased and then stripped of markup tags with the
 global regular expression `/<\/?[^>]+(>|$)/g`; the player's reply is only
 lower-cased; the verdict is equality of the two.
 */
module Answers {

  datatype Verdict = Correct | Incorrect

  /** Lower-casing of one character, restricted to ASCII letters. */
  function LowerChar(c: char): (d: char)
    ensures 'A' <= c <= 'Z' ==> 'a' <= d <= 'z' && d as int - c as int == 32
    ensures !('A' <= c <= 'Z') ==> d == c
  {
    if 'A' <= c <= 'Z' then (c as int + 32) as char else c
  }

  /** `String.prototype.toLowerCase`, restricted to ASCII letters. */
  function Lower(s: string): (t: string)
    ensures |t| == |s|
    ensures forall i :: 0 <= i < |s| ==> t[i] == LowerChar(s[i])
  {
    seq(|s|, i requires 0 <= i < |s| => LowerChar(s[i]))
  }

  predicate NoUpper(s: string) {
    forall i :: 0 <= i < |s| ==> !('A' <= s[i] <= 'Z')
  }

  /** A lower-cased string has no upper-case letter, so lower-casing it again
      changes nothing. */
  lemma LowerIdempotent(s: string)
    ensures NoUpper(Lower(s))
    ensures Lower(Lower(s)) == Lower(s)
  {
  }

  /** Two replies that differ only in letter case lower-case to the same text. */
  lemma LowerIgnoresCase(s: string, t: string)
    requires |s| == |t|
    requires forall i :: 0 <= i < |s| ==> s[i] == t[i] || LowerChar(s[i]) == t[i] || s[i] == LowerChar(t[i])
    ensures Lower(s) == Lower(t)
  {
    forall i | 0 <= i < |s| ensures Lower(s)[i] == Lower(t)[i] {
      assert LowerChar(LowerChar(s[i])) == LowerChar(s[i]);
      assert LowerChar(LowerChar(t[i])) == LowerChar(t[i]);
    }
  }

  /** Does the tag regular expression match at the start of `s`? It needs a
      `<` followed by at least one character other than `>`. */
  predicate TagStartsAt(s: string) {
    |s| >= 2 && s[0] == '<' && s[1] != '>'
  }

  /** Consumes the rest of a tag after its `<`: the longest run of characters
      other than `>`, then the `>` if there is one (otherwise the end of the
      text ends the match). */
  function DropTagBody(t: string): (rest: string)
    ensures |rest| <= |t|
    ensures rest == t[|t| - |rest|..]
  {
    if |t| == 0 then t
    else if t[0] == '>' then t[1..]
    else DropTagBody(t[1..])
  }

  /** `replace(/<\/?[^>]+(>|$)/g, "")`: scanning left to right, every match is
      deleted and the scan resumes after it. `\/?[^>]+` accepts exactly the
      non-empty runs without `>`, and the greedy run stops only at a `>` or
      at the end of the text. */
  function StripTags(s: string): (r: string)
    ensures |r| <= |s|
    decreases |s|
  {
    if |s| == 0 then s
    else if TagStartsAt(s) then StripTags(DropTagBody(s[1..]))
    else [s[0]] + StripTags(s[1..])
  }

  /** No match of the tag expression anywhere: every `<` is the last character
      or is followed directly by `>`. */
  predicate TagFree(s: string) {
    forall i :: 0 <= i < |s| && s[i] == '<' ==> i == |s| - 1 || s[i + 1] == '>'
  }

  /** A character other than `<` at the front always survives stripping. */
  lemma StripKeepsPlainHead(s: string)
    requires |s| > 0 && s[0] != '<'
    ensures |StripTags(s)| > 0 && StripTags(s)[0] == s[0]
  {
  }

  /** Stripping leaves tag-free text untouched. */
  lemma {:induction false} StripTagFreeUnchanged(s: string)
    requires TagFree(s)
    ensures StripTags(s) == s
    decreases |s|
  {
    if |s| > 0 {
      assert !TagStartsAt(s);
      assert TagFree(s[1..]) by {
        forall i | 0 <= i < |s[1..]| && s[1..][i] == '<'
          ensures i == |s[1..]| - 1 || s[1..][i + 1] == '>'
        {
          assert s[i + 1] == '<';
        }
      }
      StripTagFreeUnchanged(s[1..]);
      assert [s[0]] + s[1..] == s;
    }
  }

  /** Text with no `<` at all is never changed by stripping. */
  lemma StripWithoutAngle(s: string)
    requires forall i :: 0 <= i < |s| ==> s[i] != '<'
    ensures StripTags(s) == s
  {
    StripTagFreeUnchanged(s);
  }

  /** What stripping leaves contains no tag. */
  lemma {:induction false} StripLeavesTagFree(s: string)
    ensures TagFree(StripTags(s))
    decreases |s|
  {
    if |s| == 0 {
    } else if TagStartsAt(s) {
      StripLeavesTagFree(DropTagBody(s[1..]));
    } else {
      var rest := StripTags(s[1..]);
      StripLeavesTagFree(s[1..]);
      var r := [s[0]] + rest;
      assert StripTags(s) == r;
      if s[0] == '<' && |s| >= 2 {
        assert s[1] == '>';
        StripKeepsPlainHead(s[1..]);
      }
      forall i | 0 <= i < |r| && r[i] == '<' ensures i == |r| - 1 || r[i + 1] == '>' {
        if i > 0 {
          assert rest[i - 1] == '<';
        }
      }
    }
  }

  /** Stripping twice is the same as stripping once. */
  lemma StripIdempotent(s: string)
    ensures StripTags(StripTags(s)) == StripTags(s)
  {
    StripLeavesTagFree(s);
    StripTagFreeUnchanged(StripTags(s));
  }

  lemma {:induction false} DropTagBodyCommutesWithLower(t: string)
    ensures DropTagBody(Lower(t)) == Lower(DropTagBody(t))
    decreases |t|
  {
    if |t| > 0 {
      assert Lower(t)[1..] == Lower(t[1..]);
      if t[0] != '>' {
        DropTagBodyCommutesWithLower(t[1..]);
      }
    }
  }

  lemma LowerSplit(s: string)
    requires |s| > 0
    ensures Lower(s) == [LowerChar(s[0])] + Lower(s[1..])
  {
  }

  /** Lower-casing and tag stripping commute, so the order the source applies
      them in does not affect the canonical answer. */
  lemma {:induction false} StripCommutesWithLower(s: string)
    ensures StripTags(Lower(s)) == Lower(StripTags(s))
    decreases |s|
  {
    if |s| > 0 {
      var l := Lower(s);
      LowerSplit(s);
      assert l[1..] == Lower(s[1..]);
      assert TagStartsAt(l) == TagStartsAt(s);
      if TagStartsAt(s) {
        DropTagBodyCommutesWithLower(s[1..]);
        StripCommutesWithLower(DropTagBody(s[1..]));
      } else {
        StripCommutesWithLower(s[1..]);
        var rest := StripTags(s[1..]);
        assert StripTags(s) == [s[0]] + rest;
        assert StripTags(l) == [l[0]] + StripTags(l[1..]);
        LowerSplit([s[0]] + rest);
        assert ([s[0]] + rest)[1..] == rest;
      }
    }
  }

  /** The canonical answer as it is compared: lower-cased, then tag-stripped.
      It is the same text as stripping first and lower-casing after. */
  function CanonicalAnswer(answer: string): (c: string)
    ensures c == Lower(StripTags(answer))
    ensures |c| <= |answer|
    ensures NoUpper(c) && TagFree(c)
  {
    var l := Lower(answer);
    LowerIdempotent(answer);
    StripLeavesTagFree(l);
    StripCommutesWithLower(answer);
    assert StripTags(l) == Lower(StripTags(answer));
    LowerIdempotent(StripTags(answer));
    StripTags(l)
  }

  /** The reply as it is compared: lower-cased only. */
  function NormalisedReply(reply: string): (r: string)
    ensures |r| == |reply| && NoUpper(r)
    ensures forall i :: 0 <= i < |reply| ==> r[i] == LowerChar(reply[i])
  {
    LowerIdempotent(reply);
    Lower(reply)
  }

  /** `verifyAnswer`: the reply is correct exactly when, once both are
      lower-cased, it equals the answer with its tags removed. */
  function Judge(reply: string, answer: string): (v: Verdict)
    ensures v == Correct <==> Lower(reply) == Lower(StripTags(answer))
  {
    if NormalisedReply(reply) == CanonicalAnswer(answer) then Correct else Incorrect
  }

  /** The verdict does not depend on the letter case of the reply. */
  lemma JudgeIgnoresReplyCase(reply: string, answer: string)
    ensures Judge(Lower(reply), answer) == Judge(reply, answer)
  {
    LowerIdempotent(reply);
  }

  /** A reply that contains a tag anywhere is never correct: lower-casing
      keeps the tag, and the canonical answer it is compared with never
      contains one. */
  lemma ReplyWithTagIsIncorrect(reply: string, answer: string)
    requires !TagFree(reply)
    ensures Judge(reply, answer) == Incorrect
  {
    var i :| 0 <= i < |reply| && reply[i] == '<' && i != |reply| - 1 && reply[i + 1] != '>';
    var r := NormalisedReply(reply);
    assert r[i] == '<' && r[i + 1] == LowerChar(reply[i + 1]) && r[i + 1] != '>';
    assert !TagFree(r);
  }

  /** Consuming a tag body that has no `>` before the closing `>` leaves
      exactly the text after that `>`. */
  lemma {:induction false} DropClosedTagBody(b: string, t: string)
    requires forall i :: 0 <= i < |b| ==> b[i] != '>'
    ensures DropTagBody(b + ">" + t) == t
    decreases |b|
  {
    var s := b + ">" + t;
    if |b| == 0 {
      assert s[0] == '>' && s[1..] == t;
    } else {
      assert s[0] == b[0] && s[1..] == b[1..] + ">" + t;
      DropClosedTagBody(b[1..], t);
    }
  }

  /** A tag body with no `>` at all runs to the end of the text. */
  lemma {:induction false} DropOpenTagBody(b: string)
    requires forall i :: 0 <= i < |b| ==> b[i] != '>'
    ensures DropTagBody(b) == []
    decreases |b|
  {
    if |b| > 0 {
      DropOpenTagBody(b[1..]);
    }
  }

  /** A complete tag `<…>` is deleted and the text after it is stripped on
      its own. */
  lemma StripCompleteTag(b: string, t: string)
    requires |b| > 0 && forall i :: 0 <= i < |b| ==> b[i] != '>'
    ensures StripTags("<" + b + ">" + t) == StripTags(t)
  {
    var s := "<" + b + ">" + t;
    assert s[1] == b[0] && TagStartsAt(s);
    assert s[1..] == b + ">" + t;
    DropClosedTagBody(b, t);
  }

  /** An unterminated tag `<…` deletes everything up to the end of the text
      (the `$` alternative of the expression). */
  lemma StripUnterminatedTag(b: string)
    requires |b| > 0 && forall i :: 0 <= i < |b| ==> b[i] != '>'
    ensures StripTags("<" + b) == []
  {
    var s := "<" + b;
    assert s[1] == b[0] && TagStartsAt(s);
    assert s[1..] == b;
    DropOpenTagBody(b);
  }

  /** A prefix without `<` passes through stripping unchanged, whatever
      follows it. */
  lemma {:induction false} StripPlainPrefix(p: string, t: string)
    requires forall i :: 0 <= i < |p| ==> p[i] != '<'
    ensures StripTags(p + t) == p + StripTags(t)
    decreases |p|
  {
    if |p| > 0 {
      var s := p + t;
      assert s[0] == p[0] && !TagStartsAt(s);
      assert StripTags(s) == [s[0]] + StripTags(s[1..]);
      assert s[1..] == p[1..] + t;
      StripPlainPrefix(p[1..], t);
      assert [p[0]] + (p[1..] + StripTags(t)) == p + StripTags(t);
    } else {
      assert p + t == t;
    }
  }

  lemma LowerPlath()
    ensures Lower("<i>Plath</i>") == "<i>plath</i>"
  {
    var a := "<i>Plath</i>";
    forall i | 0 <= i < |a| ensures Lower(a)[i] == "<i>plath</i>"[i] {
    }
  }

  lemma StripClosingItalic()
    ensures StripTags("</i>") == []
  {
    assert TagStartsAt("</i>");
    assert DropTagBody("/i>") == [];
  }

  lemma ItalicParts(p: string)
    ensures "<i>" + p + "</i>" == "<" + "i" + ">" + (p + "</i>")
  {
  }

  /** Italic markup around plain text is removed completely. */
  lemma StripItalic(p: string)
    requires forall i :: 0 <= i < |p| ==> p[i] != '<'
    ensures StripTags("<i>" + p + "</i>") == p
  {
    var t := p + "</i>";
    ItalicParts(p);
    StripCompleteTag("i", t);
    StripPlainPrefix(p, "</i>");
    StripClosingItalic();
    assert p + [] == p;
  }

  lemma StripPlath()
    ensures StripTags("<i>plath</i>") == "plath"
  {
    assert "<i>plath</i>" == "<i>" + "plath" + "</i>";
    StripItalic("plath");
  }

  lemma CanonicalPlath()
    ensures CanonicalAnswer("<i>Plath</i>") == "plath"
  {
    LowerPlath();
    StripPlath();
  }

  /** The italicised canonical answer `<i>Plath</i>` accepts the reply `plath`,
      in any letter case, and nothing shorter. */
  lemma PlathExample()
    ensures Judge("plath", "<i>Plath</i>") == Correct
    ensures Judge("PLATH", "<i>Plath</i>") == Correct
    ensures Judge("plat", "<i>Plath</i>") == Incorrect
  {
    CanonicalPlath();
    ReplyPlath();
    assert |NormalisedReply("plat")| == 4;
  }

  lemma ReplyPlath()
    ensures NormalisedReply("plath") == "plath"
    ensures NormalisedReply("PLATH") == "plath"
  {
    var a := "PLATH";
    forall i | 0 <= i < 5 ensures Lower(a)[i] == "plath"[i] {
    }
    forall i | 0 <= i < 5 ensures Lower("plath")[i] == "plath"[i] {
    }
  }
}
