/**
 * The error keys the form validators report: each names an entry of the
 * cached message catalogue, `ERROR_MESSAGES[section][key]`.
 */
module Messages {

  datatype ErrorKey =
    // section 'user'
    | UserBillingNameTooLong      // billing_name_too_long
    | UserStreetNameTooLong       // street_name_too_long
    | UserCityNameTooLong         // city_name_too_long
    | UserInvalidPostcode         // invalid_postcode
    | UserInvalidCountry          // invalid_country
    | UserInvalidTaxNumber        // invalid_tax_number
    | UserInvalidEmail            // invalid_email
    | UserInvalidRegCheckbox      // invalid_reg_checkbox
    | UserInvalidFirstName        // invalid_first_name
    | UserInvalidLastName         // invalid_last_name
    | UserInvalidCompanyName      // invalid_company_name
    | UserInvalidPhone            // invalid_phone
    | UserMissingBillingData      // missing_billing_data
    // section 'auth'
    | AuthInvalidEmail            // invalid_email
    | AuthInvalidName             // invalid_name
    | AuthInvalidLastName         // invalid_last_name
    | AuthInvalidPassLowerCase    // invalid_pass_lower_case
    | AuthInvalidPassUpperCase    // invalid_pass_upper_case
    | AuthInvalidPassDigit        // invalid_pass_digit
    | AuthInvalidPhone            // invalid_phone
    | AuthInvalidPassLength       // invalid_pass_length
    | AuthInvalidPassConfirm      // invalid_pass_confirm
    | AuthInvalidRegCheckbox      // invalid_reg_checkbox
    | AuthInvalidNewPassLowerCase // invalid_new_pass_lower_case
    | AuthInvalidNewPassUpperCase // invalid_new_pass_upper_case
    | AuthInvalidNewPassDigit     // invalid_new_pass_digit
    | AuthInvalidNewPassLength    // invalid_new_pass_length
}

/**
 * A validator is a fixed sequence of checks, each appending its own key to
 * the error list when it fails. `Flag` is one such step; the facts here say
 * what any concatenation of steps looks like: its keys appear in check order,
 * and the list is determined by which checks failed.
 */
module Checks {

  /** One `if <failed>: errors.append(key)` step. */
  function Flag<K>(failed: bool, key: K): seq<K> {
    if failed then [key] else []
  }

  /** `a` is `b` with some elements left out, order kept. */
  predicate IsSubseq<K(==)>(a: seq<K>, b: seq<K>)
    decreases |b|
  {
    if a == [] then true
    else if b == [] then false
    else if a[0] == b[0] then IsSubseq(a[1..], b[1..])
    else IsSubseq(a, b[1..])
  }

  predicate NoDup<K(==)>(s: seq<K>) {
    forall i, j :: 0 <= i < j < |s| ==> s[i] != s[j]
  }

  /** `[x for x in s if x in keep]`. */
  function Keep<K(==)>(s: seq<K>, keep: set<K>): (r: seq<K>)
    decreases |s|
  {
    if s == [] then []
    else (if s[0] in keep then [s[0]] else []) + Keep(s[1..], keep)
  }

  lemma {:induction false} SubseqMembers<K>(a: seq<K>, b: seq<K>)
    requires IsSubseq(a, b)
    ensures forall x :: x in a ==> x in b
    ensures |a| <= |b|
    decreases |b|
  {
    if a != [] {
      if a[0] == b[0] {
        SubseqMembers(a[1..], b[1..]);
        assert forall x :: x in a ==> x == a[0] || x in a[1..];
      } else {
        SubseqMembers(a, b[1..]);
      }
    }
  }

  /** A subsequence of a list without repetitions has none either. */
  lemma {:induction false} SubseqNoDup<K>(a: seq<K>, b: seq<K>)
    requires IsSubseq(a, b) && NoDup(b)
    ensures NoDup(a)
    decreases |b|
  {
    if a != [] {
      assert NoDup(b[1..]) by {
        forall i, j | 0 <= i < j < |b[1..]| ensures b[1..][i] != b[1..][j] {
          assert b[1..][i] == b[i + 1] && b[1..][j] == b[j + 1];
        }
      }
      if a[0] == b[0] {
        SubseqNoDup(a[1..], b[1..]);
        SubseqMembers(a[1..], b[1..]);
        assert a[0] !in b[1..] by {
          forall k | 0 <= k < |b[1..]| ensures b[1..][k] != b[0] {
            assert b[1..][k] == b[k + 1];
          }
        }
        forall i, j | 0 <= i < j < |a| ensures a[i] != a[j] {
          if i == 0 {
            assert a[j] == a[1..][j - 1];
          } else {
            assert a[i] == a[1..][i - 1] && a[j] == a[1..][j - 1];
          }
        }
      } else {
        SubseqNoDup(a, b[1..]);
      }
    }
  }

  /**
   * The error list is determined by the set of failed checks: two lists in
   * the order of the same repetition-free check list, with the same members,
   * are the same list.
   */
  lemma {:induction false} SubseqUnique<K>(a: seq<K>, b: seq<K>, order: seq<K>)
    requires IsSubseq(a, order) && IsSubseq(b, order) && NoDup(order)
    requires forall x :: x in a <==> x in b
    ensures a == b
    decreases |order|
  {
    if order != [] {
      var h := order[0];
      var t := order[1..];
      assert NoDup(t) by {
        forall i, j | 0 <= i < j < |t| ensures t[i] != t[j] {
          assert t[i] == order[i + 1] && t[j] == order[j + 1];
        }
      }
      assert h !in t by {
        forall k | 0 <= k < |t| ensures t[k] != h {
          assert t[k] == order[k + 1];
        }
      }
      HeadOrTail(a, h, t);
      HeadOrTail(b, h, t);
      if h in a {
        SubseqNoDup(a, order);
        SubseqNoDup(b, order);
        forall x ensures x in a[1..] <==> x in b[1..] {
          NoDupTail(a, x);
          NoDupTail(b, x);
        }
        SubseqUnique(a[1..], b[1..], t);
        assert a == [a[0]] + a[1..] && b == [b[0]] + b[1..];
      } else {
        SubseqUnique(a, b, t);
      }
    }
  }

  /** In `h` followed by `t` without `h`: a subsequence starts with `h` exactly when it contains it. */
  lemma {:induction false} HeadOrTail<K>(a: seq<K>, h: K, t: seq<K>)
    requires IsSubseq(a, [h] + t) && h !in t
    ensures h in a ==> a[0] == h && IsSubseq(a[1..], t)
    ensures h !in a ==> IsSubseq(a, t)
  {
    assert ([h] + t)[1..] == t;
    if a != [] && a[0] != h {
      SubseqMembers(a, t);
    }
  }

  /** In a list without repetitions, the tail holds everything but the head. */
  lemma NoDupTail<K>(a: seq<K>, x: K)
    requires NoDup(a) && a != []
    ensures x in a[1..] <==> x in a && x != a[0]
  {
    if x in a[1..] {
      var k :| 0 <= k < |a[1..]| && a[1..][k] == x;
      assert a[k + 1] == x;
    }
    if x in a && x != a[0] {
      var k :| 0 <= k < |a| && a[k] == x;
      assert a[1..][k - 1] == x;
    }
  }

  /** Being a subsequence is transitive. */
  lemma {:induction false} SubseqTrans<K>(a: seq<K>, b: seq<K>, c: seq<K>)
    requires IsSubseq(a, b) && IsSubseq(b, c)
    ensures IsSubseq(a, c)
    decreases |c|
  {
    if a != [] {
      SubseqMembers(a, b);
      assert b != [];
      if b[0] == c[0] {
        if a[0] == b[0] {
          SubseqTrans(a[1..], b[1..], c[1..]);
        } else {
          SubseqTrans(a, b[1..], c[1..]);
        }
      } else {
        SubseqTrans(a, b, c[1..]);
        SubseqSkip(a, c);
      }
    }
  }

  /** Appending an element to the longer list, or to both, keeps a subsequence one. */
  lemma {:induction false} SubseqExtend<K>(a: seq<K>, b: seq<K>, x: K)
    requires IsSubseq(a, b)
    ensures IsSubseq(a, b + [x]) && IsSubseq(a + [x], b + [x])
    decreases |b|
  {
    if b == [] {
      assert a == [];
      assert [] + [x] == [x] && [x][1..] == [];
    } else {
      assert (b + [x])[1..] == b[1..] + [x];
      if a == [] {
        if b[0] != x {
          SubseqExtend(a, b[1..], x);
        }
        assert a + [x] == [x] && [x][1..] == [];
      } else {
        assert (a + [x])[1..] == a[1..] + [x];
        if a[0] == b[0] {
          SubseqExtend(a[1..], b[1..], x);
        } else {
          SubseqExtend(a, b[1..], x);
        }
      }
    }
  }

  /** `Keep` leaves out elements and keeps the order of the rest. */
  lemma {:induction false} KeepFacts<K>(s: seq<K>, keep: set<K>)
    ensures IsSubseq(Keep(s, keep), s)
    ensures forall x :: x in Keep(s, keep) <==> x in s && x in keep
    decreases |s|
  {
    if s != [] {
      KeepFacts(s[1..], keep);
      var rest := Keep(s[1..], keep);
      if s[0] in keep {
        assert ([s[0]] + rest)[1..] == rest;
      } else {
        assert Keep(s, keep) == rest;
        SubseqSkip(rest, s);
      }
      assert forall x :: x in s <==> x == s[0] || x in s[1..];
    }
  }

  /** Dropping the head of the longer list keeps what was a subsequence of its tail. */
  lemma {:induction false} SubseqSkip<K>(a: seq<K>, b: seq<K>)
    requires b != [] && IsSubseq(a, b[1..])
    ensures IsSubseq(a, b)
    decreases |b|, 0
  {
    if a != [] && a[0] == b[0] {
      SubseqTailOf(a, b[1..]);
    }
  }

  /** The tail of a subsequence is a subsequence. */
  lemma {:induction false} SubseqTailOf<K>(a: seq<K>, b: seq<K>)
    requires a != [] && IsSubseq(a, b)
    ensures IsSubseq(a[1..], b)
    decreases |b|, 1
  {
    if a[0] == b[0] {
      SubseqSkip(a[1..], b);
    } else {
      SubseqTailOf(a, b[1..]);
      SubseqSkip(a[1..], b);
    }
  }

  /**
   * The errors of a fixed list of checks: the key of every failed check, in
   * check order. `failed[i]` says whether the check that reports `keys[i]` failed.
   */
  function Collect<K>(failed: seq<bool>, keys: seq<K>): seq<K>
    requires |failed| == |keys|
    decreases |keys|
  {
    if keys == [] then [] else Flag(failed[0], keys[0]) + Collect(failed[1..], keys[1..])
  }

  /**
   * With distinct keys, a key is reported exactly when its check failed, and
   * the reported keys come in check order (so each at most once).
   */
  lemma {:induction false} CollectFacts<K>(failed: seq<bool>, keys: seq<K>)
    requires |failed| == |keys| && NoDup(keys)
    ensures forall i :: 0 <= i < |keys| ==> (keys[i] in Collect(failed, keys) <==> failed[i])
    ensures IsSubseq(Collect(failed, keys), keys)
    ensures NoDup(Collect(failed, keys)) && |Collect(failed, keys)| <= |keys|
    ensures Collect(failed, keys) == [] <==> forall i :: 0 <= i < |keys| ==> !failed[i]
    decreases |keys|
  {
    if keys != [] {
      var rest := keys[1..];
      assert NoDup(rest) by {
        forall i, j | 0 <= i < j < |rest| ensures rest[i] != rest[j] {
          assert rest[i] == keys[i + 1] && rest[j] == keys[j + 1];
        }
      }
      CollectFacts(failed[1..], rest);
      var tail := Collect(failed[1..], rest);
      SubseqMembers(tail, rest);
      assert keys[0] !in rest by {
        forall k | 0 <= k < |rest| ensures rest[k] != keys[0] {
          assert rest[k] == keys[k + 1];
        }
      }
      forall i | 0 <= i < |keys| ensures keys[i] in Collect(failed, keys) <==> failed[i] {
        if i > 0 {
          assert keys[i] == rest[i - 1];
        }
      }
      if failed[0] {
        assert ([keys[0]] + tail)[1..] == tail;
      } else {
        assert Collect(failed, keys) == tail;
        if tail != [] {
          assert tail[0] in rest;
        }
      }
      SubseqNoDup(Collect(failed, keys), keys);
      SubseqMembers(Collect(failed, keys), keys);
    }
  }

  /** The order facts of `CollectFacts` alone. */
  lemma CollectOrder<K>(failed: seq<bool>, keys: seq<K>)
    requires |failed| == |keys| && NoDup(keys)
    ensures IsSubseq(Collect(failed, keys), keys)
    ensures NoDup(Collect(failed, keys)) && |Collect(failed, keys)| <= |keys|
  {
    CollectFacts(failed, keys);
  }

  /** The key of check `i` is reported exactly when that check failed. */
  lemma CollectHas<K>(failed: seq<bool>, keys: seq<K>, i: nat, key: K)
    requires |failed| == |keys| && NoDup(keys) && i < |keys| && keys[i] == key
    ensures key in Collect(failed, keys) <==> failed[i]
  {
    CollectFacts(failed, keys);
  }
}
