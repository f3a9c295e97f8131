/** `drop_duplicates(keep="last")` as pandas applies it to the log rows: among rows with the same
    key only the last one survives, and survivors keep their relative order. */
module DropDuplicates {
  import opened Seqs

  /** Some element of `s` has key `k`. */
  predicate HasKey<T, K(==)>(s: seq<T>, key: T -> K, k: K)
  {
    exists j :: 0 <= j < |s| && key(s[j]) == k
  }

  /** Index `i` holds the last occurrence of its key in `s`. */
  predicate IsLastOccurrence<T, K(==)>(s: seq<T>, key: T -> K, i: int)
    requires 0 <= i < |s|
  {
    forall j :: i < j < |s| ==> key(s[j]) != key(s[i])
  }

  function DropDuplicatesLast<T(==), K(==)>(s: seq<T>, key: T -> K): (r: seq<T>)
    ensures |r| <= |s|
    ensures forall x :: x in r ==> x in s
    ensures forall i, j :: 0 <= i < j < |r| ==> key(r[i]) != key(r[j])
    decreases |s|
  {
    if s == [] then []
    else
      var rest := DropDuplicatesLast(s[1..], key);
      if HasKey(s[1..], key, key(s[0])) then rest
      else
        assert forall x :: x in rest ==> key(x) != key(s[0]) by {
          forall x | x in rest ensures key(x) != key(s[0]) {
            var j :| 0 <= j < |s[1..]| && s[1..][j] == x;
          }
        }
        [s[0]] + rest
  }

  /** No key is lost and none is invented: the survivors carry exactly the keys of the input. */
  lemma {:induction false} DropDuplicatesKeys<T, K>(s: seq<T>, key: T -> K, k: K)
    ensures HasKey(DropDuplicatesLast(s, key), key, k) <==> HasKey(s, key, k)
    decreases |s|
  {
    if s != [] {
      var rest := DropDuplicatesLast(s[1..], key);
      DropDuplicatesKeys(s[1..], key, k);
      if HasKey(s, key, k) {
        if key(s[0]) == k {
          if HasKey(s[1..], key, key(s[0])) {
            assert HasKey(rest, key, k);
          } else {
            assert key(([s[0]] + rest)[0]) == k;
          }
        } else {
          var j :| 0 <= j < |s| && key(s[j]) == k;
          assert key(s[1..][j - 1]) == k;
          var i :| 0 <= i < |rest| && key(rest[i]) == k;
          if !HasKey(s[1..], key, key(s[0])) {
            assert key(([s[0]] + rest)[i + 1]) == k;
          }
        }
      }
      if HasKey(DropDuplicatesLast(s, key), key, k) {
        var r := DropDuplicatesLast(s, key);
        var i :| 0 <= i < |r| && key(r[i]) == k;
        if !HasKey(s[1..], key, key(s[0])) && i == 0 {
          assert key(s[0]) == k;
        } else if !HasKey(s[1..], key, key(s[0])) {
          assert key(rest[i - 1]) == k;
          var j :| 0 <= j < |s[1..]| && key(s[1..][j]) == k;
          assert key(s[j + 1]) == k;
        } else {
          var j :| 0 <= j < |s[1..]| && key(s[1..][j]) == k;
          assert key(s[j + 1]) == k;
        }
      }
    }
  }

  /** The last occurrence of every key survives. */
  lemma {:induction false} DropDuplicatesKeepsLast<T, K>(s: seq<T>, key: T -> K, i: nat)
    requires i < |s| && IsLastOccurrence(s, key, i)
    ensures s[i] in DropDuplicatesLast(s, key)
    decreases |s|
  {
    var rest := DropDuplicatesLast(s[1..], key);
    if i > 0 {
      assert IsLastOccurrence(s[1..], key, i - 1) by {
        forall j | i - 1 < j < |s[1..]| ensures key(s[1..][j]) != key(s[1..][i - 1]) {
          assert key(s[j + 1]) != key(s[i]);
        }
      }
      DropDuplicatesKeepsLast(s[1..], key, i - 1);
    }
  }

  /** The survivor with a given key is that key's last occurrence: later rows win. */
  lemma DropDuplicatesLastWins<T, K>(s: seq<T>, key: T -> K, i: nat, x: T)
    requires i < |s| && IsLastOccurrence(s, key, i)
    requires x in DropDuplicatesLast(s, key) && key(x) == key(s[i])
    ensures x == s[i]
  {
    var r := DropDuplicatesLast(s, key);
    DropDuplicatesKeepsLast(s, key, i);
    var a :| 0 <= a < |r| && r[a] == x;
    var b :| 0 <= b < |r| && r[b] == s[i];
    assert a == b;
  }

  /** Survivors appear in the order of the input. */
  lemma {:induction false} DropDuplicatesOrder<T, K>(s: seq<T>, key: T -> K)
    ensures IsSubsequence(DropDuplicatesLast(s, key), s)
    decreases |s|
  {
    if s != [] {
      var rest := DropDuplicatesLast(s[1..], key);
      DropDuplicatesOrder(s[1..], key);
      if HasKey(s[1..], key, key(s[0])) {
        SubsequenceSkip(rest, s);
      } else {
        assert ([s[0]] + rest)[1..] == rest;
      }
    }
  }

  /** The reference meaning of `keep="last"`, position by position: walking `s` from index
      `i`, an element is kept exactly when no later element shares its key. */
  function LastOccurrences<T, K(==)>(s: seq<T>, key: T -> K, i: nat): seq<T>
    decreases |s| - i
  {
    if i >= |s| then []
    else (if IsLastOccurrence(s, key, i) then [s[i]] else []) + LastOccurrences(s, key, i + 1)
  }

  /** The recursive definition computes exactly the reference selection of last occurrences. */
  lemma {:induction false} DropDuplicatesSpec<T, K>(s: seq<T>, key: T -> K, i: nat)
    requires i <= |s|
    ensures DropDuplicatesLast(s[i..], key) == LastOccurrences(s, key, i)
    decreases |s| - i
  {
    if i < |s| {
      DropDuplicatesSpec(s, key, i + 1);
      var t := s[i..];
      assert t[1..] == s[i + 1..];
      assert t[0] == s[i];
      if HasKey(t[1..], key, key(t[0])) {
        var j :| 0 <= j < |t[1..]| && key(t[1..][j]) == key(t[0]);
        assert key(s[i + 1 + j]) == key(s[i]);
        assert !IsLastOccurrence(s, key, i);
      } else {
        assert IsLastOccurrence(s, key, i) by {
          forall j | i < j < |s| ensures key(s[j]) != key(s[i]) {
            assert t[1..][j - i - 1] == s[j];
          }
        }
      }
    } else {
      assert s[i..] == [];
    }
  }
}
