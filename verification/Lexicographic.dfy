/** The order of sequences by their first difference, a prefix coming first. */
module Lexicographic {
  import opened Sorting

  predicate LexLe<T(==)>(le: (T, T) -> bool, a: seq<T>, b: seq<T>) {
    if a == [] then true
    else if b == [] then false
    else if a[0] == b[0] then LexLe(le, a[1..], b[1..])
    else le(a[0], b[0])
  }

  function Lex<T(==)>(le: (T, T) -> bool): (seq<T>, seq<T>) -> bool {
    (a: seq<T>, b: seq<T>) => LexLe(le, a, b)
  }

  lemma {:induction false} LexTotal<T(!new)>(le: (T, T) -> bool, a: seq<T>, b: seq<T>)
    requires TotalPreorder(le) && Antisymmetric(le)
    ensures LexLe(le, a, b) || LexLe(le, b, a)
    ensures LexLe(le, a, b) && LexLe(le, b, a) ==> a == b
  {
    if a != [] && b != [] {
      if a[0] == b[0] {
        LexTotal(le, a[1..], b[1..]);
        assert a == [a[0]] + a[1..] && b == [b[0]] + b[1..];
      }
    }
  }

  lemma {:induction false} LexTransitive<T(!new)>(le: (T, T) -> bool, a: seq<T>, b: seq<T>, c: seq<T>)
    requires TotalPreorder(le) && Antisymmetric(le) && LexLe(le, a, b) && LexLe(le, b, c)
    ensures LexLe(le, a, c)
  {
    if a != [] && a[0] == b[0] == c[0] {
      LexTransitive(le, a[1..], b[1..], c[1..]);
    }
  }

  /** A total order on elements gives a total order on sequences. */
  lemma LexIsTotalOrder<T(!new)>(le: (T, T) -> bool)
    requires TotalPreorder(le) && Antisymmetric(le)
    ensures TotalPreorder(Lex(le)) && Antisymmetric(Lex(le))
  {
    forall a, b ensures (Lex(le)(a, b) || Lex(le)(b, a)) && (Lex(le)(a, b) && Lex(le)(b, a) ==> a == b) {
      LexTotal(le, a, b);
    }
    forall a, b, c | Lex(le)(a, b) && Lex(le)(b, c) ensures Lex(le)(a, c) {
      LexTransitive(le, a, b, c);
    }
  }

  predicate CharLe(c: char, d: char) {
    c <= d
  }

  /** Text by code points, as Python compares `str`. */
  predicate TextLe(s: string, t: string) {
    Lex(CharLe)(s, t)
  }

  /** Paths by their components, as `pathlib` compares them. */
  predicate PathLe(p: seq<string>, q: seq<string>) {
    Lex(TextLe)(p, q)
  }

  lemma TextAndPathOrder()
    ensures TotalPreorder(TextLe) && Antisymmetric(TextLe)
    ensures TotalPreorder(PathLe) && Antisymmetric(PathLe)
  {
    LexIsTotalOrder(CharLe);
    assert TotalPreorder(TextLe) && Antisymmetric(TextLe) by {
      forall s, t ensures TextLe(s, t) == Lex(CharLe)(s, t) { }
    }
    LexIsTotalOrder(TextLe);
    forall p, q ensures PathLe(p, q) == Lex(TextLe)(p, q) { }
  }

  // ---- The order by its first difference ----

  /** `a` is a proper prefix of `b`, or the two first differ at a place where `a` has the smaller element. */
  ghost predicate FirstSmaller<T>(less: (T, T) -> bool, a: seq<T>, b: seq<T>) {
    a < b || exists i :: 0 <= i < |a| && i < |b| && a[..i] == b[..i] && less(a[i], b[i])
  }

  lemma {:induction false} LexExactly<T(!new)>(le: (T, T) -> bool, less: (T, T) -> bool, a: seq<T>, b: seq<T>)
    requires forall x, y :: less(x, y) <==> le(x, y) && x != y
    ensures LexLe(le, a, b) <==> a == b || FirstSmaller(less, a, b)
  {
    if a != [] && b != [] && a[0] == b[0] {
      LexExactly(le, less, a[1..], b[1..]);
      if FirstSmaller(less, a, b) { SmallerToTail(less, a, b); }
      if FirstSmaller(less, a[1..], b[1..]) { SmallerFromTail(less, a, b); }
      assert a == [a[0]] + a[1..] && b == [b[0]] + b[1..];
    } else if a != [] && b != [] {
      if le(a[0], b[0]) { assert a[..0] == b[..0] && less(a[0], b[0]); }
      if FirstSmaller(less, a, b) && !(a < b) {
        var i :| 0 <= i < |a| && i < |b| && a[..i] == b[..i] && less(a[i], b[i]);
        if i > 0 { SameFirst(a, b, i); }
      }
    }
  }

  lemma SameFirst<T>(a: seq<T>, b: seq<T>, i: int)
    requires 0 < i <= |a| && i <= |b| && a[..i] == b[..i]
    ensures a[0] == b[0]
  {
    assert a[..i][0] == b[..i][0];
  }

  lemma SmallerToTail<T>(less: (T, T) -> bool, a: seq<T>, b: seq<T>)
    requires a != [] && b != [] && a[0] == b[0] && !less(a[0], b[0]) && FirstSmaller(less, a, b)
    ensures FirstSmaller(less, a[1..], b[1..])
  {
    var s, t := a[1..], b[1..];
    if a < b {
      assert s == b[..|a|][1..];
    } else {
      var i :| 0 <= i < |a| && i < |b| && a[..i] == b[..i] && less(a[i], b[i]);
      assert s[..i - 1] == a[..i][1..] == b[..i][1..] == t[..i - 1];
      assert less(s[i - 1], t[i - 1]);
    }
  }

  lemma SmallerFromTail<T>(less: (T, T) -> bool, a: seq<T>, b: seq<T>)
    requires a != [] && b != [] && a[0] == b[0] && FirstSmaller(less, a[1..], b[1..])
    ensures FirstSmaller(less, a, b)
  {
    var s, t := a[1..], b[1..];
    if s < t {
      assert a == [a[0]] + s && b == [a[0]] + t;
    } else {
      var i :| 0 <= i < |s| && i < |t| && s[..i] == t[..i] && less(s[i], t[i]);
      assert a[..i + 1] == [a[0]] + s[..i] && b[..i + 1] == [a[0]] + t[..i];
      assert less(a[i + 1], b[i + 1]);
    }
  }

  /** `s` comes before `t` by code points. */
  ghost predicate TextBefore(s: string, t: string) {
    s < t || exists i :: 0 <= i < |s| && i < |t| && s[..i] == t[..i] && s[i] < t[i]
  }

  /** `p` comes before `q` by components. */
  ghost predicate PathBefore(p: seq<string>, q: seq<string>) {
    p < q || exists i :: 0 <= i < |p| && i < |q| && p[..i] == q[..i] && TextBefore(p[i], q[i])
  }

  predicate Less(c: char, d: char) {
    c < d
  }

  lemma TextLeExactly(s: string, t: string)
    ensures TextLe(s, t) <==> s == t || TextBefore(s, t)
    ensures TextBefore(s, t) ==> s != t
  {
    LexExactly(CharLe, Less, s, t);
    assert FirstSmaller(Less, s, t) <==> TextBefore(s, t);
  }

  ghost function Before(): (string, string) -> bool {
    (s: string, t: string) => TextLe(s, t) && s != t
  }

  lemma PathLeExactly(p: seq<string>, q: seq<string>)
    ensures PathLe(p, q) <==> p == q || PathBefore(p, q)
    ensures PathBefore(p, q) ==> p != q
  {
    LexExactly(TextLe, Before(), p, q);
    forall s, t ensures Before()(s, t) <==> TextBefore(s, t) { TextLeExactly(s, t); }
    assert FirstSmaller(Before(), p, q) <==> PathBefore(p, q);
  }
}
