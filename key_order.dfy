/**
 * The ordering the tree compares its keys with. Keys are book titles, and
 * the tree only ever uses `<`, `>` and `==` on them, so the model fixes the
 * key type to `string` and the order to the one those operators give on
 * strings: lexicographic by code point, with a proper prefix smaller than
 * any of its extensions.
 */
module KeyOrder {

  /** `a` and `b` agree on their first `i` characters, and at position `i`
      either `a` has ended while `b` goes on, or `a` has the smaller
      character. */
  predicate PartsAt(a: string, b: string, i: nat)
  {
    i <= |a| && i <= |b| && a[..i] == b[..i] &&
    ((i == |a| && i < |b|) || (i < |a| && i < |b| && a[i] < b[i]))
  }

  /** `a < b` on strings: the first position where the two differ decides,
      and a proper prefix is smaller. */
  predicate Less(a: string, b: string): (r: bool)
    decreases |a|
    ensures r <==> exists i: nat :: PartsAt(a, b, i)
  {
    if |a| == 0 then
      assert |b| > 0 ==> PartsAt(a, b, 0);
      |b| > 0
    else if |b| == 0 then false
    else if a[0] != b[0] then
      assert a[0] < b[0] ==> PartsAt(a, b, 0);
      a[0] < b[0]
    else
      PartsAtTails(a, b);
      Less(a[1..], b[1..])
  }

  /** Past an equal first character, `a` and `b` part where their tails do,
      one position later. */
  lemma PartsAtTails(a: string, b: string)
    requires |a| > 0 && |b| > 0 && a[0] == b[0]
    ensures (exists i: nat :: PartsAt(a, b, i)) <==> (exists j: nat :: PartsAt(a[1..], b[1..], j))
  {
    if i: nat :| PartsAt(a, b, i) {
      assert i > 0 by {
        if i == 0 { assert a[0] == b[0]; }
      }
      assert a[1..][..i - 1] == a[..i][1..] && b[1..][..i - 1] == b[..i][1..];
      assert PartsAt(a[1..], b[1..], i - 1);
    }
    if j: nat :| PartsAt(a[1..], b[1..], j) {
      assert a[..j + 1] == [a[0]] + a[1..][..j];
      assert b[..j + 1] == [b[0]] + b[1..][..j];
      assert PartsAt(a, b, j + 1);
    }
  }

  lemma {:induction false} Irreflexive(a: string)
    ensures !Less(a, a)
  {
    if |a| > 0 {
      Irreflexive(a[1..]);
    }
  }

  lemma {:induction false} Asymmetric(a: string, b: string)
    requires Less(a, b)
    ensures !Less(b, a) && a != b
  {
    if |a| > 0 && |b| > 0 && a[0] == b[0] {
      Asymmetric(a[1..], b[1..]);
    }
  }

  /** Any two keys are comparable: this is what lets the tree's final
      "neither smaller nor larger" branch treat the keys as equal. */
  lemma {:induction false} Trichotomy(a: string, b: string)
    ensures Less(a, b) || a == b || Less(b, a)
  {
    if |a| > 0 && |b| > 0 && a[0] == b[0] {
      Trichotomy(a[1..], b[1..]);
      if a[1..] == b[1..] {
        assert a == [a[0]] + a[1..];
        assert b == [b[0]] + b[1..];
      }
    }
  }

  lemma {:induction false} Transitive(a: string, b: string, c: string)
    requires Less(a, b) && Less(b, c)
    ensures Less(a, c)
  {
    if |a| > 0 && |b| > 0 && |c| > 0 && a[0] == b[0] && b[0] == c[0] {
      Transitive(a[1..], b[1..], c[1..]);
    }
  }
}
