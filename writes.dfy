/**
 * The "store under a key, later writes win" loops of the loaders
 * (`register_map[test_reg] = ghidra_reg`, `registers[reg_name] = value`,
 * `memory[addr] = byte`) as one fold over a sequence of optional writes.
 * A `None` entry is an input element the loop skips.
 */
module Writes {
  import opened Wrappers

  function Apply1<K, V>(m: map<K, V>, w: Option<(K, V)>): map<K, V> {
    match w
    case None => m
    case Some((k, v)) => m[k := v]
  }

  /** `m` after performing the writes of `ws` from first to last. */
  function ApplyAll<K, V>(m: map<K, V>, ws: seq<Option<(K, V)>>): map<K, V>
    decreases |ws|
  {
    if ws == [] then m else ApplyAll(Apply1(m, ws[0]), ws[1..])
  }

  /** The keys that some element of `ws` writes. */
  ghost function Written<K, V>(ws: seq<Option<(K, V)>>): set<K> {
    set i | 0 <= i < |ws| && ws[i].Some? :: ws[i].value.0
  }

  /** Unfolding of ApplyAll at position i, the step a loop over `ws` takes. */
  lemma ApplyAllAt<K, V>(m: map<K, V>, ws: seq<Option<(K, V)>>, i: nat)
    requires i < |ws|
    ensures ApplyAll(m, ws[i..]) == ApplyAll(Apply1(m, ws[i]), ws[i + 1..])
  {
    assert ws[i..][1..] == ws[i + 1..];
  }

  lemma {:induction false} ApplyAllConcat<K, V>(m: map<K, V>, xs: seq<Option<(K, V)>>, ys: seq<Option<(K, V)>>)
    ensures ApplyAll(m, xs + ys) == ApplyAll(ApplyAll(m, xs), ys)
    decreases |xs|
  {
    if xs == [] {
      assert xs + ys == ys;
    } else {
      assert (xs + ys)[1..] == xs[1..] + ys;
      ApplyAllConcat(Apply1(m, xs[0]), xs[1..], ys);
    }
  }

  /** A skipped element contributes nothing, wherever it stands. */
  lemma SkipContributesNothing<K, V>(m: map<K, V>, xs: seq<Option<(K, V)>>, ys: seq<Option<(K, V)>>)
    ensures ApplyAll(m, xs + [None] + ys) == ApplyAll(m, xs + ys)
  {
    ApplyAllConcat(m, xs + [None], ys);
    ApplyAllConcat(m, xs, [None]);
    ApplyAllConcat(m, xs, ys);
  }

  /** The result holds exactly the keys of `m` and the keys written. */
  lemma {:induction false} ApplyAllKeys<K, V>(m: map<K, V>, ws: seq<Option<(K, V)>>)
    ensures ApplyAll(m, ws).Keys == m.Keys + Written(ws)
    decreases |ws|
  {
    if ws != [] {
      ApplyAllKeys(Apply1(m, ws[0]), ws[1..]);
      forall k | k in Written(ws) ensures k in Apply1(m, ws[0]).Keys + Written(ws[1..]) {
        var i :| 0 <= i < |ws| && ws[i].Some? && ws[i].value.0 == k;
        if i > 0 { assert ws[1..][i - 1] == ws[i]; }
      }
      forall k | k in Written(ws[1..]) ensures k in Written(ws) {
        var i :| 0 <= i < |ws[1..]| && ws[1..][i].Some? && ws[1..][i].value.0 == k;
        assert ws[i + 1] == ws[1..][i];
      }
    }
  }

  /** A key that nothing writes keeps its presence and value from `m`. */
  lemma {:induction false} ApplyAllUnwritten<K, V>(m: map<K, V>, ws: seq<Option<(K, V)>>, k: K)
    requires forall i :: 0 <= i < |ws| && ws[i].Some? ==> ws[i].value.0 != k
    ensures k in ApplyAll(m, ws) <==> k in m
    ensures k in m ==> ApplyAll(m, ws)[k] == m[k]
    decreases |ws|
  {
    if ws != [] {
      forall i | 0 <= i < |ws[1..]| && ws[1..][i].Some? ensures ws[1..][i].value.0 != k {
        assert ws[1..][i] == ws[i + 1];
      }
      ApplyAllUnwritten(Apply1(m, ws[0]), ws[1..], k);
    }
  }

  /** The last write to a key decides its value. */
  lemma {:induction false} LastWriteWins<K, V>(m: map<K, V>, ws: seq<Option<(K, V)>>, i: nat)
    requires i < |ws| && ws[i].Some?
    requires forall j :: i < j < |ws| && ws[j].Some? ==> ws[j].value.0 != ws[i].value.0
    ensures ws[i].value.0 in ApplyAll(m, ws)
    ensures ApplyAll(m, ws)[ws[i].value.0] == ws[i].value.1
    decreases i
  {
    if i == 0 {
      forall j | 0 <= j < |ws[1..]| && ws[1..][j].Some? ensures ws[1..][j].value.0 != ws[0].value.0 {
        assert ws[1..][j] == ws[j + 1];
      }
      ApplyAllUnwritten(Apply1(m, ws[0]), ws[1..], ws[0].value.0);
    } else {
      assert ws[1..][i - 1] == ws[i];
      forall j | i - 1 < j < |ws[1..]| && ws[1..][j].Some? ensures ws[1..][j].value.0 != ws[1..][i - 1].value.0 {
        assert ws[1..][j] == ws[j + 1];
      }
      LastWriteWins(Apply1(m, ws[0]), ws[1..], i - 1);
    }
  }
}
