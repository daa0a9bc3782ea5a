/** The language selection of the form: an ordered list of codes, in the
    order they were picked, holding at most three of them. */
module Selection {
  /** The most codes `handleLanguageSelect` lets the selection hold. */
  const MaxSelected: nat := 3

  /** `selection.filter(l => l !== code)`: every occurrence of `code` dropped,
      the other codes kept in their order. */
  function Without(s: seq<string>, code: string): (r: seq<string>)
    ensures code !in r
    ensures forall c :: c != code ==> (c in r <==> c in s)
    ensures |r| <= |s|
    ensures code in s ==> |r| < |s|
  {
    if s == [] then []
    else if s[0] == code then Without(s[1..], code)
    else [s[0]] + Without(s[1..], code)
  }

  /** The selection after the picker reports a click on `code`. */
  function Toggle(s: seq<string>, code: string): (r: seq<string>)
    ensures code in r <==> code !in s && |s| < MaxSelected
    ensures forall c :: c != code ==> (c in r <==> c in s)
  {
    if code in s then Without(s, code)
    else if |s| < MaxSelected then s + [code]
    else s
  }

  /** The selection after the picker reports clicks on `codes`, in order. */
  function ToggleAll(s: seq<string>, codes: seq<string>): seq<string>
    decreases codes
  {
    if codes == [] then s else ToggleAll(Toggle(s, codes[0]), codes[1..])
  }

  /** No code is listed twice. */
  predicate NoDuplicates(s: seq<string>)
  {
    forall i, j :: 0 <= i < j < |s| ==> s[i] != s[j]
  }

  /** The invariant of the selection: within capacity and without repeats. */
  predicate Valid(s: seq<string>)
  {
    |s| <= MaxSelected && NoDuplicates(s)
  }

  /** Filtering out a code that is not there changes nothing. */
  lemma {:induction false} WithoutAbsent(s: seq<string>, code: string)
    requires code !in s
    ensures Without(s, code) == s
  {
    if s != [] {
      assert s == [s[0]] + s[1..];
      WithoutAbsent(s[1..], code);
    }
  }

  /** Filtering works piecewise on a concatenation. */
  lemma {:induction false} WithoutAppend(a: seq<string>, b: seq<string>, code: string)
    ensures Without(a + b, code) == Without(a, code) + Without(b, code)
  {
    if a != [] {
      assert (a + b)[1..] == a[1..] + b;
      WithoutAppend(a[1..], b, code);
    } else {
      assert a + b == b;
    }
  }

  /** Filtering out the one occurrence of a code closes the gap it leaves,
      keeping what came before and after it in order. */
  lemma {:induction false} WithoutKeepsOrder(before: seq<string>, after: seq<string>, code: string)
    requires code !in before && code !in after
    ensures Without(before + [code] + after, code) == before + after
  {
    WithoutAppend(before + [code], after, code);
    WithoutAppend(before, [code], code);
    WithoutAbsent(before, code);
    WithoutAbsent(after, code);
  }

  /** Filtering never introduces a repeat. */
  lemma {:induction false} WithoutNoDuplicates(s: seq<string>, code: string)
    requires NoDuplicates(s)
    ensures NoDuplicates(Without(s, code))
  {
    if s != [] {
      assert NoDuplicates(s[1..]) by {
        forall i, j | 0 <= i < j < |s[1..]| ensures s[1..][i] != s[1..][j] {
          assert s[1..][i] == s[i + 1] && s[1..][j] == s[j + 1];
        }
      }
      WithoutNoDuplicates(s[1..], code);
      if s[0] != code {
        var rest := Without(s[1..], code);
        assert s[0] !in s[1..] by {
          forall k | 0 <= k < |s[1..]| ensures s[1..][k] != s[0] {
            assert s[1..][k] == s[k + 1];
          }
        }
        assert s[0] !in rest;
        var r := [s[0]] + rest;
        forall i, j | 0 <= i < j < |r| ensures r[i] != r[j] {
          if i == 0 {
            assert r[j] == rest[j - 1];
          } else {
            assert r[i] == rest[i - 1] && r[j] == rest[j - 1];
          }
        }
      }
    }
  }

  /** Clicking a selected code removes that one entry and keeps the rest in order. */
  lemma ToggleSelected(s: seq<string>, i: nat)
    requires NoDuplicates(s)
    requires i < |s|
    ensures Toggle(s, s[i]) == s[..i] + s[i + 1..]
  {
    var code := s[i];
    assert s == s[..i] + [code] + s[i + 1..];
    assert code !in s[..i] by {
      forall k | 0 <= k < i ensures s[..i][k] != code { assert s[..i][k] == s[k]; }
    }
    var after := s[i + 1..];
    assert code !in after by {
      forall k | 0 <= k < |after| ensures after[k] != code { assert after[k] == s[i + 1 + k]; }
    }
    WithoutKeepsOrder(s[..i], s[i + 1..], code);
  }

  /** Clicking an unselected code below capacity appends it after the earlier picks. */
  lemma ToggleUnselected(s: seq<string>, code: string)
    requires code !in s && |s| < MaxSelected
    ensures Toggle(s, code) == s + [code]
  {
  }

  /** Clicking an unselected code at capacity is ignored. */
  lemma ToggleAtCapacity(s: seq<string>, code: string)
    requires code !in s && |s| >= MaxSelected
    ensures Toggle(s, code) == s
  {
  }

  /** Clicking the same unselected code twice below capacity undoes the first click. */
  lemma ToggleTwice(s: seq<string>, code: string)
    requires code !in s && |s| < MaxSelected
    ensures Toggle(Toggle(s, code), code) == s
  {
    WithoutKeepsOrder(s, [], code);
    assert s + [code] + [] == s + [code];
    assert s + [] == s;
  }

  /** One click keeps the selection within capacity and without repeats. */
  lemma ToggleValid(s: seq<string>, code: string)
    requires Valid(s)
    ensures Valid(Toggle(s, code))
  {
    if code in s {
      WithoutNoDuplicates(s, code);
    } else if |s| < MaxSelected {
      var r := s + [code];
      forall i, j | 0 <= i < j < |r| ensures r[i] != r[j] {
        if j == |s| {
          assert r[i] == s[i];
        } else {
          assert r[i] == s[i] && r[j] == s[j];
        }
      }
    }
  }

  /** Any run of clicks keeps the selection within capacity and without repeats. */
  lemma {:induction false} ToggleAllValid(s: seq<string>, codes: seq<string>)
    requires Valid(s)
    ensures Valid(ToggleAll(s, codes))
    decreases codes
  {
    if codes != [] {
      ToggleValid(s, codes[0]);
      ToggleAllValid(Toggle(s, codes[0]), codes[1..]);
    }
  }

  /** Starting from the empty selection, any run of clicks leaves at most three distinct codes. */
  lemma ReachableValid(codes: seq<string>)
    ensures |ToggleAll([], codes)| <= MaxSelected
    ensures NoDuplicates(ToggleAll([], codes))
  {
    ToggleAllValid([], codes);
  }

  /** Clicks only ever select codes that were already selected or were clicked. */
  lemma {:induction false} ToggleAllWithin(s: seq<string>, codes: seq<string>, allowed: set<string>)
    requires forall c :: c in s ==> c in allowed
    requires forall c :: c in codes ==> c in allowed
    ensures forall c :: c in ToggleAll(s, codes) ==> c in allowed
    decreases codes
  {
    if codes != [] {
      assert codes[0] in codes;
      forall c | c in codes[1..] ensures c in allowed {
        assert c in codes;
      }
      ToggleAllWithin(Toggle(s, codes[0]), codes[1..], allowed);
    }
  }

  /** Picking Spanish, French and German, then Japanese: Japanese is refused. */
  lemma FourthPickRefused()
    ensures ToggleAll([], ["es", "fr", "de", "ja"]) == ["es", "fr", "de"]
  {
  }
}
