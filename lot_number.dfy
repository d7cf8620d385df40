/** The lot-number cleanup `re.sub(r'\s*\(.*?\)', '', lot)`: every match of the
    pattern, found left to right without overlap, is deleted. */
module LotNumber {
  import opened Wrappers
  import opened Text

  /** The lazy group `.*?\)` can end at offset `k` of `t`: `t[k]` is ')' and the
      characters before it are all matched by `.`, which skips no newline. */
  predicate ClosesAt(t: string, k: int) {
    0 <= k < |t| && t[k] == ')' && forall i :: 0 <= i < k ==> t[i] != '\n'
  }

  lemma ClosesAtTail(t: string)
    requires t != [] && t[0] != '\n' && t[0] != ')'
    ensures forall k :: ClosesAt(t, k) <==> 1 <= k && ClosesAt(t[1..], k - 1)
  {
    forall k | 1 <= k && ClosesAt(t[1..], k - 1)
      ensures ClosesAt(t, k)
    {
      forall i | 0 <= i < k
        ensures t[i] != '\n'
      {
        if i > 0 { assert t[i] == t[1..][i - 1]; }
      }
    }
  }

  /** Where the lazy group `.*?\)` stops in the text after '(': the first
      reachable ')', if one comes before any newline. */
  function FindClose(t: string): (r: Option<nat>)
    ensures r.Some? ==> ClosesAt(t, r.value) && forall j :: 0 <= j < r.value ==> !ClosesAt(t, j)
    ensures r.None? ==> forall j :: !ClosesAt(t, j)
  {
    if t == [] || t[0] == '\n' then None
    else if t[0] == ')' then Some(0)
    else
      ClosesAtTail(t);
      match FindClose(t[1..])
      case None => None
      case Some(k) => Some(k + 1)
  }

  /** `s[..n]` is matched by `\s*\(.*?\)` with the whitespace run `s[..w]`. */
  predicate PatternMatch(s: string, w: int, n: int) {
    0 <= w < n <= |s| && AllSpace(s[..w]) && s[w] == '(' && ClosesAt(s[w + 1..], n - w - 2)
  }

  /** Only the whole leading whitespace run can precede the '(' of a match. */
  lemma MatchSpaceRun(s: string, w: int, n: int)
    requires PatternMatch(s, w, n)
    ensures w == LeadingSpace(s)
  {
  }

  /** Length of the match of `\s*\(.*?\)` at the start of `s`, if there is one:
      whitespace is skipped, then a '(' must come. */
  function MatchLen(s: string): (r: Option<nat>)
    ensures r.Some? ==> 2 <= r.value <= |s|
  {
    if s == [] then None
    else if IsSpace(s[0]) then
      match MatchLen(s[1..])
      case Some(n) => Some(n + 1)
      case None => None
    else if s[0] == '(' then
      match FindClose(s[1..])
      case Some(k) => Some(k + 2)
      case None => None
    else None
  }

  /** `MatchLen` finds the match the regex engine finds: the greedy `\s*` can only
      take the whole whitespace run, so the match is the shortest one, and there is
      none exactly when no length matches. */
  lemma {:induction false} MatchLenCorrect(s: string)
    ensures MatchLen(s).Some? ==> (exists w :: PatternMatch(s, w, MatchLen(s).value))
                                  && forall w, n :: n < MatchLen(s).value ==> !PatternMatch(s, w, n)
    ensures MatchLen(s).None? ==> forall w, n :: !PatternMatch(s, w, n)
  {
    MatchLenRun(s);
    var w := LeadingSpace(s);
    assert AllSpace(s[..w]);
    forall w', n | PatternMatch(s, w', n) ensures w' == w {
      MatchSpaceRun(s, w', n);
    }
    if w < |s| && s[w] == '(' {
      var c := FindClose(s[w + 1..]);
      if c.Some? {
        assert PatternMatch(s, w, w + c.value + 2);
      }
    }
  }

  /** `MatchLen` skips the whole whitespace run and then looks for the group. */
  lemma {:induction false} MatchLenRun(s: string)
    ensures var w := LeadingSpace(s);
      MatchLen(s) == if w < |s| && s[w] == '(' then
                       match FindClose(s[w + 1..])
                       case Some(k) => Some(w + k + 2)
                       case None => None
                     else None
  {
    if s != [] && IsSpace(s[0]) {
      var t := s[1..];
      MatchLenRun(t);
      var w := LeadingSpace(t);
      assert LeadingSpace(s) == w + 1;
      if w < |t| {
        assert t[w] == s[w + 1];
        assert t[w + 1..] == s[w + 2..];
      }
    }
  }

  /** `re.sub(r'\s*\(.*?\)', '', s)`: scanning from the left, a match is dropped and
      the scan resumes after its ')'; elsewhere one character is kept. */
  function CleanLot(s: string): (r: string)
    ensures |r| <= |s|
    decreases |s|
  {
    if s == [] then []
    else
      match MatchLen(s)
      case Some(n) => CleanLot(s[n..])
      case None => [s[0]] + CleanLot(s[1..])
  }

  /** No match of the pattern starts anywhere in `s`. */
  predicate NoGroup(s: string) {
    forall p :: 0 <= p < |s| ==> MatchLen(s[p..]).None?
  }

  /** The cleanup leaves `s` unchanged exactly when the pattern matches nowhere in it;
      otherwise it makes `s` strictly shorter. */
  lemma {:induction false} CleanLotUnchangedIff(s: string)
    ensures CleanLot(s) == s <==> NoGroup(s)
    ensures !NoGroup(s) ==> |CleanLot(s)| < |s|
    decreases |s|
  {
    if s != [] {
      CleanLotUnchangedIff(s[1..]);
      assert forall p :: 1 <= p < |s| ==> s[p..] == s[1..][p - 1..];
      assert NoGroup(s) <==> MatchLen(s).None? && NoGroup(s[1..]) by {
        if MatchLen(s).None? && NoGroup(s[1..]) {
          forall p | 0 <= p < |s| ensures MatchLen(s[p..]).None? {
            if p == 0 { assert s[0..] == s; } else { assert s[p..] == s[1..][p - 1..]; }
          }
        }
        if NoGroup(s) {
          assert s[0..] == s;
          forall p | 0 <= p < |s| - 1 ensures MatchLen(s[1..][p..]).None? {
            assert s[1..][p..] == s[p + 1..];
          }
        }
      }
      match MatchLen(s)
      case Some(n) =>
        assert |CleanLot(s)| <= |s| - n;
      case None =>
        assert [s[0]] + s[1..] == s;
    }
  }

  /** No match can start in text without '('. */
  lemma {:induction false} MatchLenNoParen(s: string)
    requires '(' !in s
    ensures MatchLen(s).None?
  {
    if s != [] {
      assert '(' !in s[1..];
      MatchLenNoParen(s[1..]);
    }
  }

  /** Text in which '(' does not occur is returned unchanged. */
  lemma {:induction false} CleanLotNoParen(s: string)
    requires '(' !in s
    ensures CleanLot(s) == s
  {
    if s != [] {
      MatchLenNoParen(s);
      assert '(' !in s[1..];
      CleanLotNoParen(s[1..]);
      assert [s[0]] + s[1..] == s;
    }
  }

  /** One character where no match starts is kept. */
  lemma CleanLotKeep(s: string)
    requires s != [] && MatchLen(s).None?
    ensures CleanLot(s) == [s[0]] + CleanLot(s[1..])
  {
  }

  /** No match starts at an index in `[j, k)` of `s`. */
  predicate NoGroupIn(s: string, j: int, k: int) {
    forall p :: j <= p < k && 0 <= p < |s| ==> MatchLen(s[p..]).None?
  }

  /** A stretch of `s` in which no match starts is kept as it is. */
  lemma {:induction false} CleanLotKeepsStretch(s: string, j: nat, k: nat)
    requires j <= k <= |s|
    requires NoGroupIn(s, j, k)
    ensures CleanLot(s[j..]) == s[j..k] + CleanLot(s[k..])
    decreases k - j
  {
    if j < k {
      var rest := CleanLot(s[k..]);
      assert CleanLot(s[j..]) == [s[j]] + CleanLot(s[j + 1..]) by {
        assert MatchLen(s[j..]).None?;
        CleanLotKeep(s[j..]);
        assert s[j..][1..] == s[j + 1..];
      }
      CleanLotKeepsStretch(s, j + 1, k);
      assert [s[j]] + (s[j + 1..k] + rest) == s[j..k] + rest by {
        assert s[j..k] == [s[j]] + s[j + 1..k];
      }
    }
  }

  /** A whole string that is one match disappears. */
  lemma CleanLotWholeMatch(s: string)
    requires MatchLen(s) == Some(|s|)
    ensures CleanLot(s) == []
  {
    assert s[|s|..] == [];
  }

  /** The lazy group stops at the first ')' when nothing before it is ')' or a newline. */
  lemma FindCloseFirst(u: string)
    requires forall i :: 0 <= i < |u| ==> u[i] != ')' && u[i] != '\n'
    ensures FindClose(u + ")") == Some(|u|)
  {
    var t := u + ")";
    assert ClosesAt(t, |u|);
    forall j | 0 <= j < |u| ensures !ClosesAt(t, j) {
      assert t[j] == u[j];
    }
  }

  /** Text made of characters that can start no match (no whitespace, no '(') is
      kept in front of whatever follows. */
  lemma CleanLotKeepsPlain(a: string, b: string)
    requires forall i :: 0 <= i < |a| ==> !IsSpace(a[i]) && a[i] != '('
    ensures CleanLot(a + b) == a + CleanLot(b)
  {
    var s := a + b;
    forall p | 0 <= p < |a| ensures MatchLen(s[p..]).None? {
      assert s[p..][0] == a[p];
    }
    CleanLotKeepsStretch(s, 0, |a|);
    assert s[0..] == s && s[..|a|] == a && s[|a|..] == b;
  }

  /** A space-prefixed parenthesised annotation without newline or inner ')' vanishes. */
  lemma CleanLotDropsGroup(u: string)
    requires forall i :: 0 <= i < |u| ==> u[i] != ')' && u[i] != '\n'
    ensures CleanLot(" (" + u + ")") == []
  {
    var b := " (" + u + ")";
    FindCloseFirst(u);
    assert b[1..][1..] == u + ")";
    assert MatchLen(b) == Some(|b|);
    CleanLotWholeMatch(b);
  }

  lemma ExampleShape(s: string)
    requires s == "1234567 (previously 7654321)"
    ensures s == "1234567" + (" (" + "previously 7654321" + ")")
  {
    var whole := "1234567" + (" (" + "previously 7654321" + ")");
    assert forall i :: 0 <= i < |s| ==> s[i] == whole[i];
  }

  /** A lot number followed by one space-prefixed annotation keeps only the lot
      number. */
  lemma CleanLotDropsNote(a: string, u: string)
    requires forall i :: 0 <= i < |a| ==> !IsSpace(a[i]) && a[i] != '('
    requires forall i :: 0 <= i < |u| ==> u[i] != ')' && u[i] != '\n'
    ensures CleanLot(a + (" (" + u + ")")) == a
  {
    CleanLotKeepsPlain(a, " (" + u + ")");
    CleanLotDropsGroup(u);
  }

  /** The example the cleanup exists for: the annotation after the lot number goes. */
  lemma CleanLotExample(s: string)
    requires s == "1234567 (previously 7654321)"
    ensures CleanLot(s) == "1234567"
  {
    ExampleShape(s);
    CleanLotDropsNote("1234567", "previously 7654321");
  }

  /** A group with no whitespace before it goes too, and the text after it stays. */
  lemma CleanLotDropsBareGroup(u: string, b: string)
    requires forall i :: 0 <= i < |u| ==> u[i] != ')' && u[i] != '\n'
    requires '(' !in b
    ensures CleanLot("(" + u + ")" + b) == b
  {
    var s := "(" + u + ")" + b;
    FindCloseFirst(u);
    assert s[1..] == (u + ")") + b;
    assert FindClose(s[1..]) == Some(|u|) by {
      var t := (u + ")") + b;
      assert ClosesAt(t, |u|);
      forall j | 0 <= j < |u| ensures !ClosesAt(t, j) {
        assert t[j] == u[j];
      }
    }
    assert MatchLen(s) == Some(|u| + 2);
    assert s[|u| + 2..] == b;
    CleanLotNoParen(b);
  }

  /** The whitespace before a group may be empty: a group inside the lot number goes too. */
  lemma CleanLotInnerGroupExample(s: string)
    requires s == "12(ab)34"
    ensures CleanLot(s) == "1234"
  {
    assert s == "12" + ("(" + "ab" + ")" + "34");
    CleanLotKeepsPlain("12", "(" + "ab" + ")" + "34");
    CleanLotDropsBareGroup("ab", "34");
  }

  /** A '(' whose group would cross a newline stays, and so can a ')' after a match. */
  lemma CleanLotLeavesParensExample(s: string)
    requires s == "(\n(x))"
    ensures CleanLot(s) == "()"
  {
    assert FindClose(s[1..]).None?;
    assert MatchLen(s).None?;
    var t := s[1..];
    assert FindClose(t[2..]) == Some(1);
    assert MatchLen(t[1..]) == Some(3);
    assert MatchLen(t) == Some(4);
    assert t[4..] == ")";
    CleanLotNoParen(")");
  }
}
