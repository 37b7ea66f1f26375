/** Helpers for platform identifiers: extracting ids from free text, rendering
    user and channel mentions, and testing role membership. A member's roles are
    given as the set of their role ids. */
module Mentions {
  import opened Base
  import opened Chars
  import opened Seqs
  import opened PyInt

  /* ---------- digit runs ---------- */

  /** The longest prefix of `s` made of digits. */
  function LeadingDigits(s: string): (d: string)
    ensures IsPrefix(d, s) && AllDigits(d)
    ensures |d| == |s| || !IsDigit(s[|d|])
  {
    if s != [] && IsDigit(s[0]) then [s[0]] + LeadingDigits(s[1..]) else []
  }

  /** A maximal run of digits occupies `s[i..j]`: nothing but digits inside,
      and no digit immediately before or after it. */
  predicate MaximalRun(s: string, i: int, j: int) {
    && 0 <= i < j <= |s|
    && AllDigits(s[i..j])
    && (i == 0 || !IsDigit(s[i - 1]))
    && (j == |s| || !IsDigit(s[j]))
  }

  /** The maximal digit runs of `s`, left to right. */
  function DigitRuns(s: string): (runs: seq<string>)
    ensures forall k | 0 <= k < |runs| :: runs[k] != [] && AllDigits(runs[k])
    decreases |s|
  {
    if s == [] then []
    else if IsDigit(s[0]) then
      var d := LeadingDigits(s);
      [d] + DigitRuns(s[|d|..])
    else DigitRuns(s[1..])
  }

  /** Every element of `DigitRuns(s)` is a maximal run of `s`. */
  lemma {:induction false} RunsSound(s: string, k: int) returns (i: int, j: int)
    requires 0 <= k < |DigitRuns(s)|
    ensures MaximalRun(s, i, j) && DigitRuns(s)[k] == s[i..j]
    decreases |s|
  {
    if IsDigit(s[0]) {
      var d := LeadingDigits(s);
      if k == 0 {
        i, j := 0, |d|;
      } else {
        assert DigitRuns(s)[k] == DigitRuns(s[|d|..])[k - 1];
        var i', j' := RunsSound(s[|d|..], k - 1);
        if i' == 0 {
          assert false;
        }
        ShiftRun(s, |d|, i', j');
        i, j := i' + |d|, j' + |d|;
      }
    } else {
      assert DigitRuns(s) == DigitRuns(s[1..]);
      var i', j' := RunsSound(s[1..], k);
      ShiftRun(s, 1, i', j');
      i, j := i' + 1, j' + 1;
    }
  }

  /** A maximal run of a suffix that does not touch a digit before the cut is
      a maximal run of the whole text. */
  lemma ShiftRun(s: string, n: int, i: int, j: int)
    requires 0 <= n <= |s| && MaximalRun(s[n..], i, j)
    requires i > 0 || n == 0 || !IsDigit(s[n - 1])
    ensures MaximalRun(s, i + n, j + n) && s[i + n..j + n] == s[n..][i..j]
  {
    var rest := s[n..];
    assert s[i + n..j + n] == rest[i..j];
    if i > 0 {
      assert s[i + n - 1] == rest[i - 1];
    }
    if j + n < |s| {
      assert s[j + n] == rest[j];
    }
  }

  /** Every maximal run of `s` is an element of `DigitRuns(s)`. */
  lemma {:induction false} RunsComplete(s: string, i: int, j: int)
    requires MaximalRun(s, i, j)
    ensures s[i..j] in DigitRuns(s)
    decreases |s|
  {
    if IsDigit(s[0]) {
      var d := LeadingDigits(s);
      var rest := s[|d|..];
      if i == 0 {
        RunLength(s, j, d);
        assert s[i..j] == d;
      } else {
        // a run starting after 0 starts after the leading digits
        if i <= |d| {
          assert false;
        }
        assert rest[i - |d|..j - |d|] == s[i..j];
        assert rest[i - |d| - 1] == s[i - 1];
        if j - |d| < |rest| {
          assert rest[j - |d|] == s[j];
        }
        RunsComplete(rest, i - |d|, j - |d|);
      }
    } else {
      if i == 0 {
        assert false;
      }
      var rest := s[1..];
      assert rest[i - 1..j - 1] == s[i..j];
      if i - 1 > 0 {
        assert rest[i - 2] == s[i - 1];
      }
      if j - 1 < |rest| {
        assert rest[j - 1] == s[j];
      }
      RunsComplete(rest, i - 1, j - 1);
    }
  }

  /** A maximal run starting at 0 is exactly the leading digits. */
  lemma RunLength(s: string, j: int, d: string)
    requires MaximalRun(s, 0, j) && d == LeadingDigits(s)
    ensures j == |d|
  {
  }

  /* ---------- parse_ids ---------- */

  /** A run that counts as an id and that `int` accepts: at least five
      digits, and no more than the interpreter's digit limit. */
  predicate IdRun(run: string) {
    AllDigits(run) && 5 <= |run| <= MaxStrDigits
  }

  /** `int(run)` for each run of at least five digits, in order; a run `int`
      refuses is skipped. */
  function LongRunValues(runs: seq<string>): (vals: seq<int>)
  {
    if runs == [] then [] else RunValue(runs[0]) + LongRunValues(runs[1..])
  }

  function RunValue(run: string): seq<int> {
    if IdRun(run) then [DigitValue(run) as int] else []
  }

  /** What `int` makes of a run of digits: its value within the digit limit,
      a `ValueError` beyond it. */
  lemma RunValueIsInt(run: string)
    requires run != [] && AllDigits(run)
    ensures ParseInt(run) == if |run| <= MaxStrDigits then Some(DigitValue(run) as int) else None
  {
    if |run| <= MaxStrDigits {
      ParseDigits(run);
    } else {
      ParseTooManyDigits(run);
    }
  }

  lemma {:induction false} LongRunValuesMember(runs: seq<string>, x: int)
    ensures x in LongRunValues(runs) <==>
      exists k :: 0 <= k < |runs| && IdRun(runs[k]) && x == DigitValue(runs[k])
  {
    if runs != [] {
      LongRunValuesMember(runs[1..], x);
      if x in LongRunValues(runs[1..]) {
        var k :| 0 <= k < |runs[1..]| && IdRun(runs[1..][k]) && x == DigitValue(runs[1..][k]);
        assert runs[k + 1] == runs[1..][k];
      }
      if exists k :: 0 <= k < |runs| && IdRun(runs[k]) && x == DigitValue(runs[k]) {
        var k :| 0 <= k < |runs| && IdRun(runs[k]) && x == DigitValue(runs[k]);
        if k > 0 {
          assert runs[1..][k - 1] == runs[k];
        }
      }
    }
  }

  lemma {:induction false} LongRunValuesConcat(a: seq<string>, b: seq<string>)
    ensures LongRunValues(a + b) == LongRunValues(a) + LongRunValues(b)
  {
    if a == [] {
      assert a + b == b;
    } else {
      var t := a[1..];
      calc {
        LongRunValues(a + b);
        { assert (a + b)[0] == a[0] && (a + b)[1..] == t + b; }
        RunValue(a[0]) + LongRunValues(t + b);
        { LongRunValuesConcat(t, b); }
        RunValue(a[0]) + (LongRunValues(t) + LongRunValues(b));
      }
    }
  }

  /** The list of ids `parse_ids` collects before removing repeats. */
  function RunIds(s: string): seq<int> {
    LongRunValues(DigitRuns(s))
  }

  /** `parse_ids(text)`: the values of the runs of five or more digits of
      `text or ""`, each kept at its first occurrence only. */
  function ParseIds(text: Option<string>): (ids: seq<int>)
    ensures Distinct(ids)
    ensures text == None || text == Some("") ==> ids == []
  {
    var s := text.GetOr("");
    Dedup(RunIds(s))
  }

  /** Every returned id is the value of a maximal run of at least five digits
      (and at most the digit limit). */
  lemma ParseIdsSound(s: string, x: int)
    requires x in ParseIds(Some(s))
    ensures exists i, j :: MaximalRun(s, i, j) && 5 <= j - i <= MaxStrDigits && x == DigitValue(s[i..j])
  {
    var runs := DigitRuns(s);
    LongRunValuesMember(runs, x);
    var k :| 0 <= k < |runs| && IdRun(runs[k]) && x == DigitValue(runs[k]);
    var i, j := RunsSound(s, k);
  }

  /** The value of every maximal run of at least five digits, and at most the
      digit limit, is returned. */
  lemma ParseIdsComplete(s: string, i: int, j: int)
    requires MaximalRun(s, i, j) && 5 <= j - i <= MaxStrDigits
    ensures DigitValue(s[i..j]) as int in ParseIds(Some(s))
  {
    var runs := DigitRuns(s);
    RunsComplete(s, i, j);
    var k :| 0 <= k < |runs| && runs[k] == s[i..j];
    LongRunValuesMember(runs, DigitValue(s[i..j]));
  }

  /** A cut of the text that does not split a run of digits. */
  predicate CutOutsideRun(x: string, y: string) {
    x == [] || y == [] || !IsDigit(x[|x| - 1]) || !IsDigit(y[0])
  }

  lemma {:induction false} LeadingDigitsConcat(x: string, y: string)
    requires x != [] && CutOutsideRun(x, y)
    ensures LeadingDigits(x + y) == LeadingDigits(x)
  {
    if IsDigit(x[0]) {
      assert (x + y)[1..] == x[1..] + y;
      if |x| > 1 {
        assert x[1..][|x| - 2] == x[|x| - 1];
        LeadingDigitsConcat(x[1..], y);
      } else {
        assert x[1..] + y == y;
      }
    }
  }

  /** Cutting the text outside a run cuts the list of runs. */
  lemma {:induction false} DigitRunsConcat(x: string, y: string)
    requires CutOutsideRun(x, y)
    ensures DigitRuns(x + y) == DigitRuns(x) + DigitRuns(y)
    decreases |x|
  {
    if x == [] {
      assert x + y == y;
    } else {
      var h, rest := RunsStep(x, y);
      DigitRunsConcat(rest, y);
    }
  }

  /** One step of the run scan over `x + y`, taken inside `x`: the runs `h`
      found, and the text `rest + y` left to scan. */
  lemma RunsStep(x: string, y: string) returns (h: seq<string>, rest: string)
    requires x != [] && CutOutsideRun(x, y)
    ensures |rest| < |x| && CutOutsideRun(rest, y)
    ensures DigitRuns(x + y) == h + DigitRuns(rest + y) && DigitRuns(x) == h + DigitRuns(rest)
  {
    if IsDigit(x[0]) {
      h, rest := [LeadingDigits(x)], x[|LeadingDigits(x)|..];
      RunsStepDigit(x, y, LeadingDigits(x), rest);
    } else {
      h, rest := [], x[1..];
      RunsStepOther(x, y, rest);
    }
  }

  lemma RunsStepDigit(x: string, y: string, d: string, rest: string)
    requires x != [] && IsDigit(x[0]) && CutOutsideRun(x, y)
    requires d == LeadingDigits(x) && rest == x[|d|..]
    ensures |rest| < |x| && CutOutsideRun(rest, y)
    ensures DigitRuns(x + y) == [d] + DigitRuns(rest + y) && DigitRuns(x) == [d] + DigitRuns(rest)
  {
    var s := x + y;
    LeadingDigitsConcat(x, y);
    assert s[0] == x[0];
    DigitRunsOfDigitHead(s);
    DigitRunsOfDigitHead(x);
    CutDrop(x, y, |d|);
  }

  /** Dropping a prefix of `x` keeps the cut, and the text after it. */
  lemma CutDrop(x: string, y: string, n: nat)
    requires n <= |x| && CutOutsideRun(x, y)
    ensures (x + y)[n..] == x[n..] + y
    ensures CutOutsideRun(x[n..], y)
  {
    if n < |x| {
      assert x[n..][|x| - n - 1] == x[|x| - 1];
    }
  }

  lemma DigitRunsOfDigitHead(s: string)
    requires s != [] && IsDigit(s[0])
    ensures DigitRuns(s) == [LeadingDigits(s)] + DigitRuns(s[|LeadingDigits(s)|..])
  {
  }

  lemma RunsStepOther(x: string, y: string, rest: string)
    requires x != [] && !IsDigit(x[0]) && CutOutsideRun(x, y) && rest == x[1..]
    ensures |rest| < |x| && CutOutsideRun(rest, y)
    ensures DigitRuns(x + y) == DigitRuns(rest + y) && DigitRuns(x) == DigitRuns(rest)
  {
    CutDrop(x, y, 1);
  }

  /** Ids come in text order: for text cut anywhere outside a run of digits,
      the ids of the first part come first, followed by the ids of the second
      part not already found, in their own order. */
  lemma ParseIdsSplit(x: string, y: string)
    requires CutOutsideRun(x, y)
    ensures ParseIds(Some(x + y)) == ParseIds(Some(x)) + DedupFrom(RunIds(y), Elems(ParseIds(Some(x))))
  {
    DigitRunsConcat(x, y);
    LongRunValuesConcat(DigitRuns(x), DigitRuns(y));
    DedupFromConcat(RunIds(x), RunIds(y), {});
    assert {} + Elems(RunIds(x)) == Elems(ParseIds(Some(x)));
  }

  /* ---------- mentions ---------- */

  /** `mention(user_id)`. */
  function Mention(userId: int): (r: string)
    ensures IsPrefix("<@", r) && r[|r| - 1] == '>'
    ensures userId >= 0 ==> r == "<@" + NatToString(userId) + ">"
  {
    "<@" + IntToString(userId) + ">"
  }

  const Undefined: string := "*non d\U{E9}fini*"

  /** `channel_mention(ch_id)`: a falsy id (None or 0) renders as the
      "not defined" placeholder. */
  function ChannelMention(channelId: Option<int>): (r: string)
    ensures !Truthy(channelId) <==> r == Undefined
    ensures Truthy(channelId) ==> IsPrefix("<#", r) && r == "<#" + IntToString(channelId.value) + ">"
  {
    if Truthy(channelId) then
      var r := "<#" + IntToString(channelId.value) + ">";
      assert r[0] != Undefined[0];
      r
    else Undefined
  }

  lemma {:induction false} DigitRunsOfWrapped(pre: string, digits: string, post: string)
    requires forall k | 0 <= k < |pre| :: !IsDigit(pre[k])
    requires digits != [] && AllDigits(digits)
    requires forall k | 0 <= k < |post| :: !IsDigit(post[k])
    ensures DigitRuns(pre + digits + post) == [digits]
    decreases |pre|
  {
    var s := pre + digits + post;
    if pre == [] {
      assert s == digits + post;
      LeadingOfDigits(digits, post);
      assert s[|digits|..] == post;
      NoRuns(post);
    } else {
      assert s[1..] == pre[1..] + digits + post;
      DigitRunsOfWrapped(pre[1..], digits, post);
    }
  }

  lemma {:induction false} LeadingOfDigits(digits: string, post: string)
    requires AllDigits(digits)
    requires post == [] || !IsDigit(post[0])
    ensures LeadingDigits(digits + post) == digits
  {
    if digits != [] {
      assert (digits + post)[1..] == digits[1..] + post;
      LeadingOfDigits(digits[1..], post);
    } else {
      assert digits + post == post;
    }
  }

  lemma {:induction false} NoRuns(s: string)
    requires forall k | 0 <= k < |s| :: !IsDigit(s[k])
    ensures DigitRuns(s) == []
  {
    if s != [] {
      NoRuns(s[1..]);
    }
  }

  /** Parsing a rendered mention gives back the user id, for every id long
      enough to be recognised (at least five digits). */
  lemma MentionRoundTrip(userId: int)
    requires userId >= 10000 && |NatToString(userId)| <= MaxStrDigits
    ensures ParseIds(Some(Mention(userId))) == [userId]
  {
    var digits := NatToString(userId);
    NatToStringLength(userId);
    DigitValueOfNatToString(userId);
    assert Mention(userId) == "<@" + digits + ">";
    DigitRunsOfWrapped("<@", digits, ">");
    assert LongRunValues([digits]) == [userId];
    DedupOfDistinct([userId]);
  }

  /* ---------- role membership ---------- */

  /** `has_any_role(member, role_ids)`. */
  function HasAnyRole(memberRoles: set<int>, required: seq<int>): (r: bool)
    ensures r <==> |required| == 0 || exists k :: 0 <= k < |required| && required[k] in memberRoles
  {
    |required| == 0 || AnyIn(required, memberRoles)
  }

  function AnyIn(ids: seq<int>, roles: set<int>): (r: bool)
    ensures r <==> exists k :: 0 <= k < |ids| && ids[k] in roles
  {
    if ids == [] then false
    else
      assert forall k | 1 <= k < |ids| :: ids[k] == ids[1..][k - 1];
      ids[0] in roles || AnyIn(ids[1..], roles)
  }
}
