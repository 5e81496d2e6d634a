/** How a provider's room name becomes a number, and how numbers are compared. */
module RoomText {
  import opened Wrappers

  const ROOM_NUMBER_MAX := 50
  const ROOM_TYPE_MAX := 100

  /** The characters that Python's str.strip removes. */
  predicate IsSpace(c: char) {
    || '\U{0009}' <= c <= '\U{000D}'
    || '\U{001C}' <= c <= '\U{0020}'
    || c == '\U{0085}'
    || c == '\U{00A0}'
    || c == '\U{1680}'
    || '\U{2000}' <= c <= '\U{200A}'
    || c == '\U{2028}'
    || c == '\U{2029}'
    || c == '\U{202F}'
    || c == '\U{205F}'
    || c == '\U{3000}'
  }

  function StripLeft(s: string): string
  {
    if s != "" && IsSpace(s[0]) then StripLeft(s[1..]) else s
  }

  function StripRight(s: string): string
  {
    if s != "" && IsSpace(s[|s| - 1]) then StripRight(s[..|s| - 1]) else s
  }

  function Strip(s: string): string {
    StripRight(StripLeft(s))
  }

  function LowerChar(c: char): char {
    if 'A' <= c <= 'Z' then (c as int + 32) as char else c
  }

  function Lower(s: string): string {
    if s == "" then "" else [LowerChar(s[0])] + Lower(s[1..])
  }

  /** The key two room numbers are compared by. */
  function Norm(number: string): string {
    Lower(Strip(number))
  }

  function OrEmpty(s: Option<string>): string {
    match s
    case Some(v) => v
    case None => ""
  }

  lemma {:induction false} StripLeftEnds(s: string)
    ensures StripLeft(s) == "" || !IsSpace(StripLeft(s)[0])
  {
    if s != "" && IsSpace(s[0]) {
      StripLeftEnds(s[1..]);
    }
  }

  lemma {:induction false} StripRightEnds(s: string)
    ensures StripRight(s) <= s
    ensures StripRight(s) == "" || !IsSpace(StripRight(s)[|StripRight(s)| - 1])
  {
    if s != "" && IsSpace(s[|s| - 1]) {
      StripRightEnds(s[..|s| - 1]);
    }
  }

  /** Trimming is idempotent, so trimming a name before comparing it does not change its key. */
  lemma TrimmedTwice(s: string)
    ensures Strip(Strip(s)) == Strip(s)
    ensures Norm(Strip(s)) == Norm(s)
  {
    var left := StripLeft(s);
    StripLeftEnds(s);
    StripRightEnds(left);
    assert Strip(s) != "" ==> Strip(s)[0] == left[0];
  }

  // ----- when two numbers have one key -----

  predicate Blank(s: string) {
    forall i :: 0 <= i < |s| ==> IsSpace(s[i])
  }

  lemma {:induction false} StripLeftSkips(p: string, s: string)
    requires Blank(p)
    ensures StripLeft(p + s) == StripLeft(s)
  {
    if p == "" {
      assert p + s == s;
    } else {
      assert (p + s)[1..] == p[1..] + s;
      StripLeftSkips(p[1..], s);
    }
  }

  lemma {:induction false} StripRightSkips(s: string, q: string)
    requires Blank(q)
    ensures StripRight(s + q) == StripRight(s)
  {
    if q == "" {
      assert s + q == s;
    } else {
      assert (s + q)[..|s + q| - 1] == s + q[..|q| - 1];
      StripRightSkips(s, q[..|q| - 1]);
    }
  }

  lemma {:induction false} StripLeftStops(s: string, q: string)
    ensures StripLeft(s) != "" ==> StripLeft(s + q) == StripLeft(s) + q
    ensures StripLeft(s) == "" ==> Blank(s)
  {
    if s != "" && IsSpace(s[0]) {
      assert (s + q)[1..] == s[1..] + q;
      StripLeftStops(s[1..], q);
    }
  }

  /** Blanks around a number do not count. */
  lemma {:induction false} NormIgnoresPadding(p: string, s: string, q: string)
    requires Blank(p) && Blank(q)
    ensures Norm(p + s + q) == Norm(s)
  {
    assert p + s + q == p + (s + q);
    StripLeftSkips(p, s + q);
    StripLeftStops(s, q);
    if StripLeft(s) == "" {
      StripLeftSkips(s, q);
      StripLeftSkips(q, "");
      assert q + "" == q;
    } else {
      StripRightSkips(StripLeft(s), q);
    }
  }

  predicate SameLetter(c: char, d: char) {
    || c == d
    || ('A' <= c <= 'Z' && d as int == c as int + 32)
    || ('A' <= d <= 'Z' && c as int == d as int + 32)
  }

  predicate SameButCase(s: string, t: string) {
    |s| == |t| && forall i :: 0 <= i < |s| ==> SameLetter(s[i], t[i])
  }

  lemma {:induction false} LowerAt(s: string)
    ensures |Lower(s)| == |s| && forall i :: 0 <= i < |s| ==> Lower(s)[i] == LowerChar(s[i])
  {
    if s != "" {
      LowerAt(s[1..]);
    }
  }

  /** Two numbers have one key exactly if, once trimmed, they differ in the case of ASCII letters at most. */
  lemma {:induction false} SameKeyExactly(s: string, t: string)
    ensures Norm(s) == Norm(t) <==> SameButCase(Strip(s), Strip(t))
  {
    var a, b := Strip(s), Strip(t);
    LowerAt(a);
    LowerAt(b);
    if Norm(s) == Norm(t) {
      forall i | 0 <= i < |a| ensures SameLetter(a[i], b[i]) {
        assert LowerChar(a[i]) == Lower(a)[i] == Lower(b)[i] == LowerChar(b[i]);
      }
    }
    if SameButCase(a, b) {
      forall i | 0 <= i < |a| ensures Lower(a)[i] == Lower(b)[i] {
        assert SameLetter(a[i], b[i]);
      }
    }
  }
}
