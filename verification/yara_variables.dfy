/** The variable scan of the rule generator, `re.findall(r'\$[\w]*\b', s)`.
    The pattern matches a `$` followed by a maximal non-empty run of word
    characters: with an empty run the boundary after `$` would need a word
    character next, which the greedy run would have taken, and a shorter run
    than the maximal one ends between two word characters. `$` is not a word
    character, so no match lies inside another and every `$` followed by a
    word character starts one. */
module YaraVariables {
  import opened Text

  /** Length of the run of word characters at the start of `s`. */
  function WordRun(s: string): (n: nat)
    ensures n <= |s|
    ensures forall i :: 0 <= i < n ==> IsWordChar(s[i])
    ensures n == |s| || !IsWordChar(s[n])
    decreases |s|
  {
    if |s| == 0 || !IsWordChar(s[0]) then 0 else 1 + WordRun(s[1..])
  }

  /** A variable reference: `$` and a non-empty word. */
  predicate IsVariable(v: string) {
    2 <= |v| && v[0] == '$' && IsWord(v[1..])
  }

  /** The matches of the pattern in `s`, left to right. */
  function Findall(s: string): seq<string>
    decreases |s|
  {
    if |s| == 0 then []
    else if s[0] == '$' && |s| > 1 && IsWordChar(s[1]) then
      var n := 1 + WordRun(s[1..]);
      [s[..n]] + Findall(s[n..])
    else Findall(s[1..])
  }

  /** `v` is matched at position `p` of `s`: it is a variable there and the
      character after it, if any, is not a word character. */
  predicate VariableAt(s: string, p: nat, v: string) {
    && IsVariable(v)
    && p + |v| <= |s| && s[p..p + |v|] == v
    && (p + |v| == |s| || !IsWordChar(s[p + |v|]))
  }

  /** The word run is the only maximal one. */
  lemma WordRunIsMaximal(t: string, m: nat)
    requires m <= |t|
    requires forall i :: 0 <= i < m ==> IsWordChar(t[i])
    requires m == |t| || !IsWordChar(t[m])
    ensures WordRun(t) == m
  {
  }

  /** A match in a suffix is a match in the whole text. */
  lemma VariableAtShift(s: string, d: nat, q: nat, v: string)
    requires d <= |s| && VariableAt(s[d..], q, v)
    ensures VariableAt(s, q + d, v)
  {
    assert s[d..][q..q + |v|] == s[q + d..q + d + |v|];
  }

  /** A match past position `d` is a match in the suffix from `d`. */
  lemma VariableAtUnshift(s: string, d: nat, p: nat, v: string)
    requires d <= p && VariableAt(s, p, v)
    ensures VariableAt(s[d..], p - d, v)
  {
    assert s[d..][p - d..p - d + |v|] == s[p..p + |v|];
  }

  /** Every match is a reference in the text: the returned position is where
      it was found. */
  lemma {:induction false} FindallSound(s: string, k: nat) returns (p: nat)
    requires k < |Findall(s)|
    ensures VariableAt(s, p, Findall(s)[k])
    decreases |s|, 2
  {
    if s[0] == '$' && |s| > 1 && IsWordChar(s[1]) {
      p := FindallSoundAtMatch(s, k);
    } else {
      p := FindallSoundSkip(s, k);
    }
  }

  lemma {:induction false} FindallSoundAtMatch(s: string, k: nat) returns (p: nat)
    requires |s| > 1 && s[0] == '$' && IsWordChar(s[1])
    requires k < |Findall(s)|
    ensures VariableAt(s, p, Findall(s)[k])
    decreases |s|, 1
  {
    var n := 1 + WordRun(s[1..]);
    FindallAtMatch(s);
    if k == 0 {
      FirstMatchAt(s);
      p := 0;
    } else {
      p := FindallSoundAfter(s, n, k);
    }
  }

  /** A later match lies in the text after the first one. */
  lemma {:induction false} FindallSoundAfter(s: string, n: nat, k: nat) returns (p: nat)
    requires 0 < n <= |s| && 0 < k < |Findall(s)|
    requires Findall(s) == [s[..n]] + Findall(s[n..])
    ensures VariableAt(s, p, Findall(s)[k])
    decreases |s|, 0
  {
    var q := FindallSound(s[n..], k - 1);
    MatchShift(s, n, Findall(s[n..]), k, q);
    p := q + n;
  }

  /** A match in the rest of the text, after the first match, is a match in
      the whole text. */
  lemma MatchShift(s: string, n: nat, rest: seq<string>, k: nat, q: nat)
    requires 0 < n <= |s| && 0 < k <= |rest|
    requires VariableAt(s[n..], q, rest[k - 1])
    ensures VariableAt(s, q + n, ([s[..n]] + rest)[k])
  {
    VariableAtShift(s, n, q, rest[k - 1]);
    assert ([s[..n]] + rest)[k] == rest[k - 1];
  }

  lemma {:induction false} FindallSoundSkip(s: string, k: nat) returns (p: nat)
    requires |s| > 0 && !(s[0] == '$' && |s| > 1 && IsWordChar(s[1]))
    requires k < |Findall(s)|
    ensures VariableAt(s, p, Findall(s)[k])
    decreases |s|, 0
  {
    FindallSkip(s);
    var v := Findall(s[1..])[k];
    var q := FindallSound(s[1..], k);
    VariableAtShift(s, 1, q, v);
    p := q + 1;
  }

  /** At a `$` followed by a word character the scan takes the maximal match. */
  lemma FindallAtMatch(s: string)
    requires |s| > 1 && s[0] == '$' && IsWordChar(s[1])
    ensures Findall(s) == [s[..1 + WordRun(s[1..])]] + Findall(s[1 + WordRun(s[1..])..])
  {
  }

  /** Elsewhere the scan moves on by one character. */
  lemma FindallSkip(s: string)
    requires |s| > 0 && !(s[0] == '$' && |s| > 1 && IsWordChar(s[1]))
    ensures Findall(s) == Findall(s[1..])
  {
  }

  /** A `$` followed by a word character starts a match at 0. */
  lemma FirstMatchAt(s: string)
    requires |s| > 1 && s[0] == '$' && IsWordChar(s[1])
    ensures VariableAt(s, 0, s[..1 + WordRun(s[1..])])
  {
    var n := 1 + WordRun(s[1..]);
    assert s[1..][..n - 1] == s[..n][1..];
  }

  /** Every match is `$` followed by a non-empty word. */
  lemma FindallAreVariables(s: string, k: nat)
    requires k < |Findall(s)|
    ensures IsVariable(Findall(s)[k])
  {
    var p := FindallSound(s, k);
  }

  /** Every reference in the text is found. */
  lemma {:induction false} FindallComplete(s: string, p: nat, v: string)
    requires VariableAt(s, p, v)
    ensures v in Findall(s)
    decreases |s|, 1
  {
    if s[0] == '$' && |s| > 1 && IsWordChar(s[1]) {
      var n := 1 + WordRun(s[1..]);
      FindallAtMatch(s);
      if p == 0 {
        FirstMatchIs(s, v);
      } else {
        MatchAfterRun(s, p, v);
        FindallCompleteAfter(s, n, p, v);
      }
    } else {
      FindallSkip(s);
      VariableAtUnshift(s, 1, p, v);
      FindallComplete(s[1..], p - 1, v);
    }
  }

  /** A reference at 0 is the maximal match there. */
  lemma FirstMatchIs(s: string, v: string)
    requires VariableAt(s, 0, v)
    ensures |s| > 1 && s[0] == '$' && IsWordChar(s[1])
    ensures s[..1 + WordRun(s[1..])] == v
  {
    assert forall i :: 0 <= i < |v| - 1 ==> s[1..][i] == v[1..][i];
    WordRunIsMaximal(s[1..], |v| - 1);
  }

  /** A later reference cannot start inside the word run of the first match. */
  lemma MatchAfterRun(s: string, p: nat, v: string)
    requires |s| > 1 && s[0] == '$' && IsWordChar(s[1])
    requires 0 < p && VariableAt(s, p, v)
    ensures 1 + WordRun(s[1..]) <= p
  {
    var n := 1 + WordRun(s[1..]);
    assert forall i :: 1 <= i < n ==> s[i] == s[1..][i - 1];
  }

  /** A reference after the first match is found by the rest of the scan. */
  lemma {:induction false} FindallCompleteAfter(s: string, n: nat, p: nat, v: string)
    requires n <= p && VariableAt(s, p, v)
    requires n <= |s| && Findall(s) == [s[..n]] + Findall(s[n..])
    ensures v in Findall(s)
    decreases |s|, 0
  {
    VariableAtUnshift(s, n, p, v);
    FindallComplete(s[n..], p - n, v);
  }

  /** `v` is referenced somewhere in `s`. */
  ghost predicate Referenced(s: string, v: string) {
    exists p: nat :: VariableAt(s, p, v)
  }

  /** The scan finds exactly the references in the text. */
  lemma FindallIsReferences(s: string, v: string)
    ensures v in Findall(s) <==> Referenced(s, v)
  {
    if v in Findall(s) {
      var k :| 0 <= k < |Findall(s)| && Findall(s)[k] == v;
      var p := FindallSound(s, k);
    }
    if Referenced(s, v) {
      var p: nat :| VariableAt(s, p, v);
      FindallComplete(s, p, v);
    }
  }

  /** `$` and a word followed by a non-word character or the end is one match,
      and the scan resumes after it. */
  lemma FindallVariableThen(w: string, rest: string)
    requires IsWord(w) && (|rest| == 0 || !IsWordChar(rest[0]))
    ensures Findall("$" + w + rest) == ["$" + w] + Findall(rest)
  {
    var s := "$" + w + rest;
    assert s[1..] == w + rest;
    WordRunIsMaximal(s[1..], |w|);
    FindallAtMatch(s);
    assert s[..1 + |w|] == "$" + w;
    assert s[1 + |w|..] == rest;
  }

  /** Text without `$` holds no match and is skipped. */
  lemma {:induction false} FindallSkipPrefix(u: string, t: string)
    requires '$' !in u
    ensures Findall(u + t) == Findall(t)
    decreases |u|
  {
    if |u| > 0 {
      assert u[0] in u && (u + t)[0] == u[0];
      assert forall c :: c in u[1..] ==> c in u;
      FindallSkip(u + t);
      assert (u + t)[1..] == u[1..] + t;
      FindallSkipPrefix(u[1..], t);
    } else {
      assert u + t == t;
    }
  }

  /** A `-` ends the word: `$a-b` references `$a` only. */
  lemma HyphenEndsVariable()
    ensures Findall("$a-b") == ["$a"]
  {
    FindallVariableThen("a", "-b");
    FindallSkipPrefix("-b", "");
    assert "$a-b" == "$" + "a" + "-b";
    assert "-b" == "-b" + "";
    assert "$" + "a" == "$a";
    assert Findall("") == [];
    assert Findall("-b") == [];
    assert ["$a"] + [] == ["$a"];
  }
}
