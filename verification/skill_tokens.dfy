/**
 * Splitting a developer's skill string: strtok on ",", spaces trimmed from
 * both ends of each token, at most 10 tokens kept.
 *
 * The specification is built from `Split` (every piece between commas) and
 * `NonEmpty` (strtok never returns an empty token); the method follows the C
 * loop, with `NextToken` doing what one strtok call does.
 */
module SkillTokens {

  /** The number of slots in the result array. */
  const MaxSkills := 10

  /** Every piece of `s` between commas, empty ones included: "a,,b" gives "a", "", "b". */
  function Split(s: string): (pieces: seq<string>)
    ensures |pieces| >= 1
    ensures forall i :: 0 <= i < |pieces| ==> ',' !in pieces[i]
  {
    if s == [] then [""]
    else
      var rest := Split(s[1..]);
      if s[0] == ',' then [""] + rest
      else [[s[0]] + rest[0]] + rest[1..]
  }

  /** The pieces put back together, a comma between each two. */
  function Join(pieces: seq<string>): string
    requires |pieces| >= 1
  {
    if |pieces| == 1 then pieces[0] else pieces[0] + "," + Join(pieces[1..])
  }

  /** Splitting loses nothing: joining the pieces gives back the string. */
  lemma {:induction false} JoinSplit(s: string)
    ensures Join(Split(s)) == s
  {
    if s != [] {
      var rest := Split(s[1..]);
      JoinSplit(s[1..]);
      if s[0] == ',' {
        assert ([""] + rest)[1..] == rest;
      } else {
        var pieces := [[s[0]] + rest[0]] + rest[1..];
        if |rest| > 1 {
          assert pieces[1..] == rest[1..];
          assert Join(rest) == rest[0] + "," + Join(rest[1..]);
          assert Join(pieces) == [s[0]] + rest[0] + "," + Join(rest[1..]);
        }
      }
      assert s == [s[0]] + s[1..];
    }
  }

  /** A comma-free word in front of `t` extends the first piece of `t`. */
  lemma {:induction false} SplitWord(w: string, t: string)
    requires ',' !in w
    ensures Split(w + t) == [w + Split(t)[0]] + Split(t)[1..]
  {
    var pieces := Split(t);
    if w == [] {
      assert w + t == t;
      assert w + pieces[0] == pieces[0];
      assert pieces == [pieces[0]] + pieces[1..];
    } else {
      assert w[0] in w;
      assert (w + t)[0] == w[0] != ',';
      assert (w + t)[1..] == w[1..] + t;
      SplitWord(w[1..], t);
      var rest := Split(w[1..] + t);
      assert Split(w + t) == [[w[0]] + rest[0]] + rest[1..];
      assert [w[0]] + (w[1..] + pieces[0]) == w + pieces[0];
    }
  }

  /** Splitting is undone by joining, for pieces that hold no comma. */
  lemma {:induction false} SplitJoin(pieces: seq<string>)
    requires |pieces| >= 1
    requires forall i :: 0 <= i < |pieces| ==> ',' !in pieces[i]
    ensures Split(Join(pieces)) == pieces
  {
    if |pieces| == 1 {
      SplitWord(pieces[0], "");
      assert pieces[0] + "" == pieces[0];
    } else {
      var tail := Join(pieces[1..]);
      SplitJoin(pieces[1..]);
      assert ("," + tail)[1..] == tail;
      assert Split("," + tail) == [""] + pieces[1..];
      SplitWord(pieces[0], "," + tail);
      assert pieces[0] + "," + tail == pieces[0] + ("," + tail);
      assert ([""] + pieces[1..])[1..] == pieces[1..];
      assert pieces[0] + "" == pieces[0];
      assert pieces == [pieces[0]] + pieces[1..];
    }
  }

  /** The pieces that are not empty, in order. */
  function NonEmpty(pieces: seq<string>): (kept: seq<string>)
    ensures |kept| <= |pieces|
    ensures forall i :: 0 <= i < |kept| ==> kept[i] != [] && kept[i] in pieces
  {
    if pieces == [] then []
    else if pieces[0] == [] then NonEmpty(pieces[1..])
    else [pieces[0]] + NonEmpty(pieces[1..])
  }

  /** The tokens strtok returns for the delimiter ",": the non-empty pieces, in order. */
  function Tokens(s: string): (tokens: seq<string>)
    ensures forall i :: 0 <= i < |tokens| ==> tokens[i] != [] && ',' !in tokens[i]
  {
    NonEmpty(Split(s))
  }

  /** Where `t` starts once the spaces from `lo` on are skipped: the first non-space at or after `lo`, or `|t|`. */
  function FirstKept(t: string, lo: nat): (a: nat)
    requires lo <= |t|
    ensures lo <= a <= |t|
    ensures forall i :: lo <= i < a ==> t[i] == ' '
    ensures a == |t| || t[a] != ' '
    decreases |t| - lo
  {
    if lo < |t| && t[lo] == ' ' then FirstKept(t, lo + 1) else lo
  }

  /** Where `t[lo..hi]` ends once its trailing spaces are cut. */
  function LastKept(t: string, lo: nat, hi: nat): (e: nat)
    requires lo <= hi <= |t|
    ensures lo <= e <= hi
    ensures forall i :: e <= i < hi ==> t[i] == ' '
    ensures e == lo || t[e - 1] != ' '
  {
    if lo < hi && t[hi - 1] == ' ' then LastKept(t, lo, hi - 1) else hi
  }

  /**
   * Leading and trailing spaces removed: the slice of `t` that starts at its
   * first non-space, with nothing but spaces after it.
   */
  function Trim(t: string): (r: string)
    ensures |r| <= |t|
    ensures r == [] || (r[0] != ' ' && r[|r| - 1] != ' ')
    ensures (forall i :: 0 <= i < |t| ==> t[i] == ' ') ==> r == []
    ensures FirstKept(t, 0) + |r| <= |t| && r == t[FirstKept(t, 0)..FirstKept(t, 0) + |r|]
    ensures forall i :: FirstKept(t, 0) + |r| <= i < |t| ==> t[i] == ' '
  {
    var a := FirstKept(t, 0);
    t[a..LastKept(t, a, |t|)]
  }

  lemma TokensOfEmpty()
    ensures Tokens("") == []
  {
    assert Split("") == [""];
    assert NonEmpty([""]) == NonEmpty([]);
  }

  /** A comma where a token could start is skipped. */
  lemma TokensSkipComma(s: string, k: int)
    requires 0 <= k < |s| && s[k] == ','
    ensures Tokens(s[k..]) == Tokens(s[k + 1..])
  {
    assert s[k..][1..] == s[k + 1..];
    var rest := Split(s[k + 1..]);
    assert Split(s[k..]) == [""] + rest;
    assert ([""] + rest)[1..] == rest;
  }

  /**
   * A token runs from `start` up to the next comma or the end of the string;
   * strtok resumes after that comma.
   */
  lemma TokensAtWord(s: string, start: int, end: int)
    requires 0 <= start < end <= |s|
    requires ',' !in s[start..end]
    requires end == |s| || s[end] == ','
    ensures Tokens(s[start..]) == [s[start..end]] + Tokens(s[if end < |s| then end + 1 else end..])
  {
    var w := s[start..end];
    assert s[start..] == w + s[end..];
    SplitWord(w, s[end..]);
    if end < |s| {
      assert s[end..][1..] == s[end + 1..];
      var rest := Split(s[end + 1..]);
      assert Split(s[end..]) == [""] + rest;
      assert ([""] + rest)[1..] == rest;
      assert w + "" == w;
      assert Split(s[start..]) == [w] + rest;
      assert ([w] + rest)[1..] == rest;
    } else {
      assert s[end..] == "";
      assert Split("") == [""];
      assert w + "" == w;
      assert Split(s[start..]) == [w];
      assert [w][1..] == [];
      TokensOfEmpty();
    }
  }

  /**
   * One strtok call resuming at `from`: skips commas, then takes the
   * characters up to the next comma or the end. `next` is where the
   * following call resumes.
   */
  method NextToken(s: string, from: int) returns (found: bool, start: int, end: int, next: int)
    requires 0 <= from <= |s|
    ensures found ==> from <= start < end <= next <= |s|
    ensures found ==> Tokens(s[from..]) == [s[start..end]] + Tokens(s[next..])
    ensures !found ==> Tokens(s[from..]) == []
  {
    start := from;
    while start < |s| && s[start] == ','
      invariant from <= start <= |s|
      invariant Tokens(s[from..]) == Tokens(s[start..])
    {
      TokensSkipComma(s, start);
      start := start + 1;
    }
    if start == |s| {
      TokensOfEmpty();
      return false, start, start, start;
    }
    end := start + 1;
    while end < |s| && s[end] != ','
      invariant start < end <= |s|
      invariant ',' !in s[start..end]
    {
      assert s[start..end + 1] == s[start..end] + [s[end]];
      end := end + 1;
    }
    next := if end < |s| then end + 1 else end;
    found := true;
    TokensAtWord(s, start, end);
  }

  /** The two trimming loops, on the token strtok returned. */
  method TrimToken(token: string) returns (trimmed: string)
    ensures trimmed == Trim(token)
  {
    var b := 0;
    while b < |token| && token[b] == ' '
      invariant 0 <= b <= |token|
      invariant FirstKept(token, 0) == FirstKept(token, b)
    {
      b := b + 1;
    }
    var e := |token|;
    while b < e && token[e - 1] == ' '
      invariant b <= e <= |token|
      invariant LastKept(token, b, |token|) == LastKept(token, b, e)
    {
      e := e - 1;
    }
    trimmed := token[b..e];
  }

  /**
   * processSkillString: the first (at most) 10 strtok tokens of `skills`,
   * each trimmed, and their number.
   */
  method ProcessSkillString(skills: string) returns (result: seq<string>, count: int)
    ensures count == |result|
    ensures |result| == if |Tokens(skills)| < MaxSkills then |Tokens(skills)| else MaxSkills
    ensures forall i :: 0 <= i < |result| ==> result[i] == Trim(Tokens(skills)[i])
  {
    result := [];
    count := 0;
    ghost var taken: seq<string> := [];
    ghost var from := 0;
    assert skills[0..] == skills;
    var found, start, end, next := NextToken(skills, 0);
    while found && count < MaxSkills
      invariant count == |result| == |taken| <= MaxSkills
      invariant forall i :: 0 <= i < |result| ==> result[i] == Trim(taken[i])
      invariant 0 <= from <= |skills|
      invariant Tokens(skills) == taken + Tokens(skills[from..])
      invariant found ==> from <= start < end <= next <= |skills|
      invariant found ==> Tokens(skills[from..]) == [skills[start..end]] + Tokens(skills[next..])
      invariant !found ==> Tokens(skills[from..]) == []
      decreases MaxSkills - count
    {
      var token := TrimToken(skills[start..end]);
      result := result + [token];
      count := count + 1;
      assert Tokens(skills) == (taken + [skills[start..end]]) + Tokens(skills[next..]);
      taken := taken + [skills[start..end]];
      from := next;
      found, start, end, next := NextToken(skills, next);
    }
    if found {
      assert Tokens(skills)[..|taken|] == taken;
    } else {
      assert Tokens(skills) == taken + [];
    }
  }
}
