/** The order in which Object.keys lists the integer-like keys of a node (the day keys
    YYYYMMDD and their longer forms from year 10000 on): by numeric value, which for digit
    strings without a leading zero is shorter first, then character by character (see
    Decimal.LessIsNumeric). */
module Keys {

  /** JavaScript's string comparison: strict lexicographic order, character by character; a
      proper prefix comes first. */
  predicate Lex(a: string, b: string)
    decreases |a|
  {
    |b| > 0 && (|a| == 0 || a[0] < b[0] || (a[0] == b[0] && Lex(a[1..], b[1..])))
  }

  /** The listing order: a shorter key first, keys of one length by string comparison. */
  predicate Less(a: string, b: string) {
    |a| < |b| || (|a| == |b| && Lex(a, b))
  }

  lemma {:induction false} LexIrreflexive(a: string)
    ensures !Lex(a, a)
    decreases |a|
  {
    if |a| > 0 {
      LexIrreflexive(a[1..]);
    }
  }

  lemma {:induction false} LexTransitive(a: string, b: string, c: string)
    requires Lex(a, b) && Lex(b, c)
    ensures Lex(a, c)
    decreases |a|
  {
    if |a| > 0 && a[0] == b[0] && b[0] == c[0] {
      LexTransitive(a[1..], b[1..], c[1..]);
    }
  }

  lemma {:induction false} LexTotal(a: string, b: string)
    requires a != b
    ensures Lex(a, b) || Lex(b, a)
    decreases |a|
  {
    if |a| > 0 && |b| > 0 && a[0] == b[0] {
      assert a == [a[0]] + a[1..] && b == [b[0]] + b[1..];
      LexTotal(a[1..], b[1..]);
    }
  }

  lemma LessIrreflexive(a: string)
    ensures !Less(a, a)
  {
    LexIrreflexive(a);
  }

  lemma LessTransitive(a: string, b: string, c: string)
    requires Less(a, b) && Less(b, c)
    ensures Less(a, c)
  {
    if |a| == |b| == |c| {
      LexTransitive(a, b, c);
    }
  }

  lemma LessTotal(a: string, b: string)
    requires a != b
    ensures Less(a, b) || Less(b, a)
  {
    if |a| == |b| {
      LexTotal(a, b);
    }
  }

  /** `m` is the first key of `keys` in listing order. */
  predicate IsLeast(m: string, keys: set<string>) {
    m in keys && forall k :: k in keys && k != m ==> Less(m, k)
  }

  /** `m` is the last key of `keys` in listing order. */
  predicate IsGreatest(m: string, keys: set<string>) {
    m in keys && forall k :: k in keys && k != m ==> Less(k, m)
  }

  lemma {:induction false} LeastExists(keys: set<string>)
    requires keys != {}
    ensures exists m :: IsLeast(m, keys)
    decreases keys
  {
    var x :| x in keys;
    if keys == {x} {
      assert IsLeast(x, keys);
    } else {
      LeastExists(keys - {x});
      var m :| IsLeast(m, keys - {x});
      if Less(x, m) {
        forall k | k in keys && k != x
          ensures Less(x, k)
        {
          if k != m {
            LessTransitive(x, m, k);
          }
        }
        assert IsLeast(x, keys);
      } else {
        LessTotal(x, m);
        assert IsLeast(m, keys);
      }
    }
  }

  lemma {:induction false} GreatestExists(keys: set<string>)
    requires keys != {}
    ensures exists m :: IsGreatest(m, keys)
    decreases keys
  {
    var x :| x in keys;
    if keys == {x} {
      assert IsGreatest(x, keys);
    } else {
      GreatestExists(keys - {x});
      var m :| IsGreatest(m, keys - {x});
      if Less(m, x) {
        forall k | k in keys && k != x
          ensures Less(k, x)
        {
          if k != m {
            LessTransitive(k, m, x);
          }
        }
        assert IsGreatest(x, keys);
      } else {
        LessTotal(x, m);
        assert IsGreatest(m, keys);
      }
    }
  }

  /** A set of keys has at most one first key. */
  lemma LeastUnique(a: string, b: string, keys: set<string>)
    requires IsLeast(a, keys) && IsLeast(b, keys)
    ensures a == b
  {
    if a != b {
      LessTransitive(a, b, a);
      LessIrreflexive(a);
    }
  }

  lemma GreatestUnique(a: string, b: string, keys: set<string>)
    requires IsGreatest(a, keys) && IsGreatest(b, keys)
    ensures a == b
  {
    if a != b {
      LessTransitive(a, b, a);
      LessIrreflexive(a);
    }
  }

  ghost function Least(keys: set<string>): (m: string)
    requires keys != {}
    ensures IsLeast(m, keys)
  {
    LeastExists(keys);
    var m :| IsLeast(m, keys); m
  }

  ghost function Greatest(keys: set<string>): (m: string)
    requires keys != {}
    ensures IsGreatest(m, keys)
  {
    GreatestExists(keys);
    var m :| IsGreatest(m, keys); m
  }

  /** Taking the first key off a set of two or more keys leaves its last key in place;
      taking it off a single key leaves nothing, and then the first key was the last. */
  lemma GreatestAfterLeast(keys: set<string>)
    requires keys != {}
    ensures keys - {Least(keys)} == {} ==> Least(keys) == Greatest(keys)
    ensures keys - {Least(keys)} != {} ==> Greatest(keys - {Least(keys)}) == Greatest(keys)
  {
    var l := Least(keys);
    var rest := keys - {l};
    if rest == {} {
      assert keys == {l};
      GreatestUnique(l, Greatest(keys), keys);
    } else {
      var g := Greatest(rest);
      assert IsGreatest(g, keys);
      GreatestUnique(g, Greatest(keys), keys);
    }
  }
}
