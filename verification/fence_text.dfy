/**
 * Clean-up of a model reply before it is parsed as JSON: every match of the
 * regular expression /```(?:json)?\n?|```/g is deleted, left to right, and the
 * remainder is trimmed.  The same expression is written out in
 * actions/interview.js, actions/dashboard.js and lib/inngest/function.js; here
 * it is defined once as `CleanText`.
 */
module FenceText {

  /** The characters `trim()` removes in this model (see README, "Left out"). */
  predicate IsSpace(c: char) {
    c == ' ' || c == '\t' || c == '\n' || c == '\r' || c == '\U{B}' || c == '\U{C}'
    || c == '\U{A0}' || c == '\U{FEFF}' || c == '\U{2028}' || c == '\U{2029}'
  }

  /** No whitespace at either end. */
  predicate Trimmed(s: string) {
    s == [] || (!IsSpace(s[0]) && !IsSpace(s[|s| - 1]))
  }

  /** Drops leading whitespace. */
  function TrimStart(s: string): string {
    if |s| > 0 && IsSpace(s[0]) then TrimStart(s[1..]) else s
  }

  /** Drops trailing whitespace. */
  function TrimEnd(s: string): string {
    if |s| > 0 && IsSpace(s[|s| - 1]) then TrimEnd(s[..|s| - 1]) else s
  }

  /** `String.prototype.trim` over the whitespace set above. */
  function Trim(s: string): string {
    TrimEnd(TrimStart(s))
  }

  /** What `TrimStart` keeps is a suffix of `s`, and only whitespace goes before it. */
  lemma {:induction false} TrimStartSuffix(s: string)
    ensures var r := TrimStart(s);
      && |r| <= |s| && r == s[|s| - |r|..]
      && (forall i :: 0 <= i < |s| - |r| ==> IsSpace(s[i]))
      && (r == [] || !IsSpace(r[0]))
  {
    if |s| > 0 && IsSpace(s[0]) {
      var t := s[1..];
      TrimStartSuffix(t);
      var r := TrimStart(t);
      assert TrimStart(s) == r;
      assert t[|t| - |r|..] == s[|s| - |r|..];
      forall i | 0 <= i < |s| - |r| ensures IsSpace(s[i]) {
        if i > 0 {
          assert s[i] == t[i - 1];
        }
      }
    }
  }

  /** What `TrimEnd` keeps is a prefix of `s`, and only whitespace comes after it. */
  lemma {:induction false} TrimEndPrefix(s: string)
    ensures var r := TrimEnd(s);
      && |r| <= |s| && r == s[..|r|]
      && (forall i :: |r| <= i < |s| ==> IsSpace(s[i]))
      && (r == [] || !IsSpace(r[|r| - 1]))
  {
    if |s| > 0 && IsSpace(s[|s| - 1]) {
      var t := s[..|s| - 1];
      TrimEndPrefix(t);
      var r := TrimEnd(t);
      assert TrimEnd(s) == r;
      assert t[..|r|] == s[..|r|];
      forall i | |r| <= i < |s| ensures IsSpace(s[i]) {
        if i < |t| {
          assert s[i] == t[i];
        }
      }
    }
  }

  /**
   * The result of `Trim` has no whitespace at either end, trimmed text is left
   * as it is, and the result is empty exactly when the input is all whitespace.
   */
  lemma TrimSpec(s: string)
    ensures Trimmed(Trim(s))
    ensures Trimmed(s) ==> Trim(s) == s
    ensures Trim(s) == [] <==> forall i :: 0 <= i < |s| ==> IsSpace(s[i])
  {
    var t := TrimStart(s);
    TrimStartSuffix(s);
    TrimEndPrefix(t);
    var r := TrimEnd(t);
    if r == [] {
      assert t == [];
    } else {
      assert !IsSpace(t[0]) && t[0] == s[|s| - |t|];
      assert Trimmed(s) ==> t == s && r == t;
    }
  }

  /** A run of three backticks starts at position `i`. */
  predicate FenceAt(s: string, i: nat) {
    i + 3 <= |s| && s[i] == '`' && s[i + 1] == '`' && s[i + 2] == '`'
  }

  /** `s` contains no "```". */
  predicate NoFence(s: string) {
    forall i: nat :: i < |s| ==> !FenceAt(s, i)
  }

  /** No backtick at all. */
  predicate TickFree(s: string) {
    forall i :: 0 <= i < |s| ==> s[i] != '`'
  }

  /**
   * Length of the regex match at the front of `s`: three backticks, then
   * "json" if it follows, then one line feed if it follows (both optional
   * parts are greedy; the alternative "```" never matches more).
   */
  function FenceMatchLength(s: string): (n: nat)
    requires FenceAt(s, 0)
    ensures 3 <= n <= |s|
  {
    var tagged := if 7 <= |s| && s[3..7] == "json" then 7 else 3;
    if tagged < |s| && s[tagged] == '\n' then tagged + 1 else tagged
  }

  /** The global regex replacement with "", scanning left to right. */
  function StripFences(s: string): string
    decreases |s|
  {
    if s == [] then []
    else if FenceAt(s, 0) then StripFences(s[FenceMatchLength(s)..])
    else [s[0]] + StripFences(s[1..])
  }

  /** The whole clean-up applied to a reply before `JSON.parse`. */
  function CleanText(s: string): string {
    Trim(StripFences(s))
  }

  lemma NoFenceSlice(s: string, lo: nat, hi: nat)
    requires NoFence(s) && lo <= hi <= |s|
    ensures NoFence(s[lo..hi])
  {
    forall i: nat | i < hi - lo ensures !FenceAt(s[lo..hi], i) {
      assert !FenceAt(s, lo + i);
    }
  }

  lemma TrimKeepsNoFence(s: string)
    requires NoFence(s)
    ensures NoFence(Trim(s))
  {
    var t := TrimStart(s);
    TrimStartSuffix(s);
    TrimEndPrefix(t);
    NoFenceSlice(s, |s| - |t|, |s|);
    assert s[|s| - |t|..|s|] == t;
    NoFenceSlice(t, 0, |TrimEnd(t)|);
  }

  /** A position that is not the start of a match is copied to the output. */
  lemma StripKeepsHead(s: string)
    requires s != [] && !FenceAt(s, 0)
    ensures StripFences(s) == [s[0]] + StripFences(s[1..])
  {
  }

  /**
   * A kept backtick is never followed, in the output, by two more backticks:
   * the next input position is kept as it is and, if it is a backtick too,
   * the one after it is not.
   */
  lemma KeptTickNotFollowedByFence(s: string)
    requires s != [] && s[0] == '`' && !FenceAt(s, 0)
    ensures var rest := StripFences(s[1..]);
      !(2 <= |rest| && rest[0] == '`' && rest[1] == '`')
  {
    var t := s[1..];
    if t != [] {
      StripKeepsHead(t);
      if t[0] == '`' && |t| > 1 {
        assert t[1] == s[2] && s[2] != '`';
        StripKeepsHead(t[1..]);
      }
    }
  }

  /**
   * The output never contains "```": a character kept just before a match is
   * never a backtick (otherwise the match would have started one position
   * earlier), so deletions cannot join backticks into a new fence.
   */
  lemma {:induction false} StripFencesNoFence(s: string)
    ensures NoFence(StripFences(s))
    decreases |s|
  {
    if s == [] {
    } else if FenceAt(s, 0) {
      StripFencesNoFence(s[FenceMatchLength(s)..]);
    } else {
      var rest := StripFences(s[1..]);
      StripFencesNoFence(s[1..]);
      var r := [s[0]] + rest;
      StripKeepsHead(s);
      assert StripFences(s) == r;
      if s[0] == '`' {
        KeptTickNotFollowedByFence(s);
      }
      forall i: nat | i < |r| ensures !FenceAt(r, i) {
        if i > 0 {
          assert !FenceAt(rest, i - 1);
        }
      }
    }
  }

  /** Text with no "```" goes through the replacement unchanged. */
  lemma {:induction false} StripFencesIdentity(s: string)
    requires NoFence(s)
    ensures StripFences(s) == s
    decreases |s|
  {
    if s != [] {
      assert !FenceAt(s, 0);
      NoFenceSlice(s, 1, |s|);
      assert s[1..|s|] == s[1..];
      StripFencesIdentity(s[1..]);
    }
  }

  /** A backtick-free prefix is copied verbatim and does not affect the rest. */
  lemma {:induction false} StripFencesTickFreePrefix(s: string, t: string)
    requires TickFree(s)
    ensures StripFences(s + t) == s + StripFences(t)
    decreases |s|
  {
    if s != [] {
      assert (s + t)[0] == s[0] && !FenceAt(s + t, 0);
      assert (s + t)[1..] == s[1..] + t;
      StripKeepsHead(s + t);
      assert TickFree(s[1..]);
      StripFencesTickFreePrefix(s[1..], t);
      calc {
        StripFences(s + t);
        [s[0]] + StripFences(s[1..] + t);
        [s[0]] + (s[1..] + StripFences(t));
        { assert [s[0]] + s[1..] == s; }
        s + StripFences(t);
      }
    } else {
      assert s + t == t;
    }
  }

  /** The cleaned reply contains no "```" and has no whitespace at either end. */
  lemma CleanTextSpec(s: string)
    ensures NoFence(CleanText(s)) && Trimmed(CleanText(s))
  {
    StripFencesNoFence(s);
    TrimKeepsNoFence(StripFences(s));
    TrimSpec(StripFences(s));
  }

  /** A backtick-free text is only trimmed by the clean-up. */
  lemma CleanTextTickFree(s: string)
    requires TickFree(s)
    ensures CleanText(s) == Trim(s)
  {
    StripFencesIdentity(s);
  }

  /** Cleaning twice is the same as cleaning once. */
  lemma CleanTextIdempotent(s: string)
    ensures CleanText(CleanText(s)) == CleanText(s)
  {
    var c := CleanText(s);
    CleanTextSpec(s);
    StripFencesIdentity(c);
    TrimSpec(c);
  }

  /**
   * A closing "```" at the end of the text is deleted and changes nothing
   * before it: it can neither extend an earlier match (a match ends at its
   * optional "json" and line feed) nor be absorbed into kept backticks.
   */
  lemma {:induction false} StripFencesDropsClosingFence(s: string)
    ensures StripFences(s + "```") == StripFences(s)
    decreases |s|
  {
    var u := s + "```";
    if s == [] {
      assert u == "```" && FenceMatchLength(u) == 3 && u[3..] == [];
    } else if FenceAt(s, 0) {
      assert FenceAt(u, 0);
      var n := FenceMatchLength(s);
      assert FenceMatchLength(u) == n by {
        if 7 <= |s| {
          assert u[3..7] == s[3..7];
        } else if 7 <= |u| {
          assert u[6] == '`';
          assert u[3..7][3] == '`';
        }
        var tagged := if 7 <= |s| && s[3..7] == "json" then 7 else 3;
        if tagged < |s| {
          assert u[tagged] == s[tagged];
        } else {
          assert u[tagged] == '`';
        }
      }
      assert u[n..] == s[n..] + "```";
      StripFencesDropsClosingFence(s[n..]);
    } else if s == "`" {
      assert u == "````" && FenceAt(u, 0) && FenceMatchLength(u) == 3 && u[3..] == "`";
    } else if s == "``" {
      assert u == "`````" && FenceAt(u, 0) && FenceMatchLength(u) == 3 && u[3..] == "``";
    } else {
      assert !FenceAt(u, 0) by {
        if |s| >= 3 {
          assert u[0] == s[0] && u[1] == s[1] && u[2] == s[2];
        } else if |s| == 1 {
          assert s[0] != '`' by { assert s == [s[0]]; }
        } else {
          assert s[0] != '`' || s[1] != '`' by { assert s == [s[0], s[1]]; }
        }
      }
      assert u[0] == s[0] && u[1..] == s[1..] + "```";
      StripKeepsHead(s);
      StripFencesDropsClosingFence(s[1..]);
    }
  }

  /**
   * The wrapper a model typically adds, "```json" + line feed before the
   * payload and "```" after it, is deleted whatever the payload holds: the
   * wrapped payload is cleaned exactly as the bare payload is.
   */
  lemma StripJsonFence(body: string)
    ensures StripFences("```json\n" + body + "```") == StripFences(body)
    ensures CleanText("```json\n" + body + "```") == CleanText(body)
  {
    var w := "```json\n" + body + "```";
    assert FenceAt(w, 0);
    assert w[3..7] == "json" && w[7] == '\n';
    assert FenceMatchLength(w) == 8;
    assert w[8..] == body + "```";
    StripFencesDropsClosingFence(body);
  }

  /** A payload with no "```" of its own comes out of the wrapper as it is, then trimmed. */
  lemma UnwrapJsonFence(body: string)
    requires NoFence(body)
    ensures StripFences("```json\n" + body + "```") == body
    ensures CleanText("```json\n" + body + "```") == Trim(body)
  {
    StripJsonFence(body);
    StripFencesIdentity(body);
  }
}
