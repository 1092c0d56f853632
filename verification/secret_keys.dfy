/** The hidden key sequence: a window of the last three keys pressed,
    lower-cased, and a navigation to the secret login page whenever the
    window spells `lvs`. The keyboard listener is replaced by the sequence
    of `event.key` values it receives. */
module SecretKeys {
  import opened Wrappers
  import opened Text

  const SecretCode: seq<string> := ["l", "v", "s"]
  const SecretPath := "/lvs-secret-access"
  const WindowSize := 3

  /** The last `n` entries of `s`, or all of them when there are fewer. */
  function LastN<T>(s: seq<T>, n: nat): (r: seq<T>)
    ensures |r| == if |s| < n then |s| else n
    ensures r == s[|s| - |r|..]
  {
    if |s| <= n then s else s[|s| - n..]
  }

  function LowerAll(keys: seq<string>): (r: seq<string>)
    ensures |r| == |keys|
    ensures forall i :: 0 <= i < |keys| ==> r[i] == ToLower(keys[i])
  {
    seq(|keys|, i requires 0 <= i < |keys| => ToLower(keys[i]))
  }

  /** The window spells the secret code once its entries are joined. */
  predicate Spells(window: seq<string>) {
    Join(window, "") == Join(SecretCode, "")
  }

  /** `handleKeyDown`: append the lower-cased key, keep the last three, and
      navigate when the joined window is `lvs`. The window is not cleared
      after a match. */
  function Press(window: seq<string>, key: string): (r: (seq<string>, Option<string>))
    ensures |r.0| <= WindowSize
    ensures r.0 == LastN(window + [ToLower(key)], WindowSize)
    ensures r.1.Some? <==> Spells(r.0)
    ensures r.1.Some? ==> r.1.value == SecretPath
  {
    var pushed := window + [ToLower(key)];
    var w := if |pushed| > WindowSize then pushed[|pushed| - WindowSize..] else pushed;
    (w, if Join(w, "") == Join(SecretCode, "") then Some(SecretPath) else None)
  }

  /** The window after a whole run of key presses, starting empty. */
  function Run(keys: seq<string>): seq<string>
    decreases |keys|
  {
    if |keys| == 0 then [] else Press(Run(keys[..|keys| - 1]), keys[|keys| - 1]).0
  }

  /** Whether the last key of a run navigates. */
  predicate Fires(keys: seq<string>) {
    |keys| > 0 && Press(Run(keys[..|keys| - 1]), keys[|keys| - 1]).1.Some?
  }

  /** The window is exactly the last (at most three) keys, lower-cased, in
      the order they were pressed. */
  lemma {:induction false} RunIsLastThree(keys: seq<string>)
    ensures Run(keys) == LastN(LowerAll(keys), WindowSize)
    decreases |keys|
  {
    if |keys| > 0 {
      var init := keys[..|keys| - 1];
      var last := keys[|keys| - 1];
      RunIsLastThree(init);
      assert Run(keys) == LastN(Run(init) + [ToLower(last)], WindowSize);
      LastNPush(LowerAll(init), ToLower(last), WindowSize);
      LowerAllSnoc(keys);
    }
  }

  lemma LowerAllSnoc(keys: seq<string>)
    requires |keys| > 0
    ensures LowerAll(keys) == LowerAll(keys[..|keys| - 1]) + [ToLower(keys[|keys| - 1])]
  {
    var a := LowerAll(keys);
    var b := LowerAll(keys[..|keys| - 1]) + [ToLower(keys[|keys| - 1])];
    assert |a| == |b|;
    forall i | 0 <= i < |a|
      ensures a[i] == b[i]
    {
      if i < |keys| - 1 {
        assert keys[..|keys| - 1][i] == keys[i];
      }
    }
  }

  lemma LastNPush<T>(s: seq<T>, x: T, n: nat)
    requires n > 0
    ensures LastN(LastN(s, n) + [x], n) == LastN(s + [x], n)
  {
    var a := LastN(s, n) + [x];
    var b := s + [x];
    var ra := LastN(a, n);
    var rb := LastN(b, n);
    assert |ra| == |rb|;
    forall i | 0 <= i < |ra|
      ensures ra[i] == rb[i]
    {
      assert ra[i] == a[|a| - |ra| + i];
      assert rb[i] == b[|b| - |rb| + i];
    }
  }

  /** The last key navigates exactly when the last three keys, lower-cased
      and joined, spell `lvs`. */
  lemma FiresIffLastThreeSpell(keys: seq<string>)
    ensures Fires(keys) <==> |keys| > 0 && Spells(LastN(LowerAll(keys), WindowSize))
  {
    if |keys| > 0 {
      RunIsLastThree(keys);
    }
  }

  /** Keys pressed before the last three change neither the window nor
      whether the last key navigates. */
  lemma OlderKeysIrrelevant(older: seq<string>, keys: seq<string>)
    requires |keys| >= WindowSize
    ensures Run(older + keys) == Run(keys)
    ensures Fires(older + keys) <==> Fires(keys)
  {
    RunIsLastThree(older + keys);
    RunIsLastThree(keys);
    FiresIffLastThreeSpell(older + keys);
    FiresIffLastThreeSpell(keys);
    LastKeysOfLonger(older, keys);
  }

  lemma LastKeysOfLonger(older: seq<string>, keys: seq<string>)
    requires |keys| >= WindowSize
    ensures LastN(LowerAll(older + keys), WindowSize) == LastN(LowerAll(keys), WindowSize)
  {
    var la := LowerAll(older + keys);
    var lb := LowerAll(keys);
    var ra := LastN(la, WindowSize);
    var rb := LastN(lb, WindowSize);
    forall i | 0 <= i < WindowSize
      ensures ra[i] == rb[i]
    {
      var j := |keys| - WindowSize + i;
      assert ra[i] == la[|older| + j];
      assert rb[i] == lb[j];
      assert (older + keys)[|older| + j] == keys[j];
    }
  }

  /** The code typed on its own leaves exactly the code in the window and
      navigates. */
  lemma CodeAlone()
    ensures Run(SecretCode) == SecretCode
    ensures Fires(SecretCode)
  {
    assert ToLower("l") == "l" && ToLower("v") == "v" && ToLower("s") == "s";
    RunIsLastThree(SecretCode);
    FiresIffLastThreeSpell(SecretCode);
    assert LowerAll(SecretCode) == SecretCode;
  }

  /** A match does not clear the window: after it, the window still holds
      the three keys that matched, and typing the code again navigates
      again, whatever came before. */
  lemma MatchKeepsWindow(keys: seq<string>)
    ensures Fires(keys + SecretCode)
    ensures Run(keys + SecretCode) == SecretCode
  {
    OlderKeysIrrelevant(keys, SecretCode);
    CodeAlone();
  }

  // ---------------------------------------------- single-character keys

  predicate SingleChars(keys: seq<string>) {
    forall i :: 0 <= i < |keys| ==> |keys[i]| == 1
  }

  /** Joining single characters lines them up one per position. */
  lemma {:induction false} JoinSingles(w: seq<string>)
    requires SingleChars(w)
    ensures |Join(w, "")| == |w|
    ensures forall i :: 0 <= i < |w| ==> Join(w, "")[i] == w[i][0]
    decreases |w|
  {
    if |w| > 1 {
      JoinSingles(w[1..]);
      assert Join(w, "") == w[0] + Join(w[1..], "");
    }
  }

  /** A window of one-character entries spells the code exactly when it
      holds l, v and s in that order. */
  lemma SpellsSingles(w: seq<string>)
    requires SingleChars(w) && |w| <= 3
    ensures Spells(w) <==> |w| == 3 && w[0][0] == 'l' && w[1][0] == 'v' && w[2][0] == 's'
  {
    JoinSingles(w);
    assert Join(SecretCode, "") == "lvs";
    var j := Join(w, "");
    if |w| == 3 {
      assert j == "lvs" <==> j[0] == 'l' && j[1] == 'v' && j[2] == 's';
    }
  }

  /** For ordinary one-character keys the page opens exactly when the last
      three keys are l, v and s, in either letter case. */
  lemma SingleCharacterKeys(keys: seq<string>)
    requires SingleChars(keys)
    ensures Fires(keys) <==>
      && |keys| >= 3
      && LowerChar(keys[|keys| - 3][0]) == 'l'
      && LowerChar(keys[|keys| - 2][0]) == 'v'
      && LowerChar(keys[|keys| - 1][0]) == 's'
  {
    FiresIffLastThreeSpell(keys);
    var lo := LowerAll(keys);
    var w := LastN(lo, WindowSize);
    assert SingleChars(w) by {
      forall i | 0 <= i < |w|
        ensures |w[i]| == 1
      {
        assert w[i] == lo[|lo| - |w| + i];
      }
    }
    SpellsSingles(w);
    if |keys| >= 3 {
      var n := |keys|;
      assert w[0] == lo[n - 3] && w[1] == lo[n - 2] && w[2] == lo[n - 1];
      assert w[0][0] == LowerChar(keys[n - 3][0]);
      assert w[1][0] == LowerChar(keys[n - 2][0]);
      assert w[2][0] == LowerChar(keys[n - 1][0]);
    }
  }
}
