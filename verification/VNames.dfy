/** VNames as strings, and the order the claim tool keeps them in. */
module VNames {
  import opened Facts

  datatype VName = VName(signature: string, corpus: string, root: string, path: string, language: string)

  function Codes(s: string): seq<nat> { seq(|s|, i requires 0 <= i < |s| => s[i] as nat) }

  /** `std::string::operator<`. */
  predicate StringLess(a: string, b: string) { LexLess(Codes(a), Codes(b)) }

  /** Signature, corpus, path, root, language. */
  predicate VNameLess(a: VName, b: VName) {
    if StringLess(a.signature, b.signature) then true
    else if a.signature != b.signature then false
    else if StringLess(a.corpus, b.corpus) then true
    else if a.corpus != b.corpus then false
    else if StringLess(a.path, b.path) then true
    else if a.path != b.path then false
    else if StringLess(a.root, b.root) then true
    else if a.root != b.root then false
    else StringLess(a.language, b.language)
  }

  lemma {:induction false} CodesTell(a: string, b: string)
    requires Codes(a) == Codes(b)
    ensures a == b
  {
    assert |a| == |Codes(a)| == |b|;
    forall i | 0 <= i < |a| ensures a[i] == b[i] {
      assert Codes(a)[i] == Codes(b)[i];
    }
  }

  lemma {:induction false} StringTotal(a: string, b: string)
    ensures a == b || StringLess(a, b) || StringLess(b, a)
    ensures !(StringLess(a, b) && StringLess(b, a)) && !StringLess(a, a)
  {
    LexTotal(Codes(a), Codes(b));
    if Codes(a) == Codes(b) { CodesTell(a, b); }
  }

  /** The first difference decides: a smaller character, or an end. */
  ghost predicate FirstDifference(a: string, b: string, k: nat) {
    && k <= |a| && k < |b| && a[..k] == b[..k]
    && (k == |a| || a[k] < b[k])
  }

  lemma {:induction false} StringLessIs(a: string, b: string)
    ensures StringLess(a, b) <==> exists k: nat :: FirstDifference(a, b, k)
    decreases |a|
  {
    if |a| > 0 && |b| > 0 {
      assert Codes(a) == [a[0] as nat] + Codes(a[1..]) && Codes(b) == [b[0] as nat] + Codes(b[1..]);
      StringLessIs(a[1..], b[1..]);
      if a[0] == b[0] {
        if k: nat :| FirstDifference(a[1..], b[1..], k) {
          assert a[..k + 1] == [a[0]] + a[1..][..k] && b[..k + 1] == [b[0]] + b[1..][..k];
          assert FirstDifference(a, b, k + 1);
        }
        if k: nat :| FirstDifference(a, b, k) {
          assert k > 0;
          assert a[1..][..k - 1] == a[..k][1..] && b[1..][..k - 1] == b[..k][1..];
          assert FirstDifference(a[1..], b[1..], k - 1);
        }
      } else {
        if a[0] < b[0] { assert FirstDifference(a, b, 0); }
        assert forall k: nat | FirstDifference(a, b, k) :: k == 0 || a[..k][0] == b[..k][0];
      }
    } else if |b| > 0 {
      assert FirstDifference(a, b, 0);
    }
  }

  function Columns(v: VName): seq<string> { [v.signature, v.corpus, v.path, v.root, v.language] }

  ghost predicate FirstColumn(a: VName, b: VName, i: nat) {
    i < 5 && StringLess(Columns(a)[i], Columns(b)[i]) && forall j | 0 <= j < i :: Columns(a)[j] == Columns(b)[j]
  }

  /** The first of signature, corpus, path, root and language that differs decides. */
  lemma {:induction false} VNameLessIsLex(a: VName, b: VName)
    ensures VNameLess(a, b) <==> exists i: nat :: FirstColumn(a, b, i)
  {
    hide StringLess;
    var x, y := Columns(a), Columns(b);
    forall i | 0 <= i < 5 ensures !StringLess(x[i], x[i]) { StringTotal(x[i], x[i]); }
    if VNameLess(a, b) {
      var i := if x[0] != y[0] then 0 else if x[1] != y[1] then 1 else if x[2] != y[2] then 2
               else if x[3] != y[3] then 3 else 4;
      assert FirstColumn(a, b, i);
    }
    if i: nat :| FirstColumn(a, b, i) {
      assert i > 0 ==> a.signature == x[0] == y[0] == b.signature;
      assert i > 1 ==> a.corpus == x[1] == y[1] == b.corpus;
      assert i > 2 ==> a.path == x[2] == y[2] == b.path;
      assert i > 3 ==> a.root == x[3] == y[3] == b.root;
      assert x[i] != y[i];
    }
  }

  /** The order is total, so a map or set ordered by it has one arrangement. */
  lemma {:induction false} VNameLessIsTotal()
    ensures StrictTotal(VNameLess)
  {
    forall a, b
      ensures a == b || VNameLess(a, b) || VNameLess(b, a)
      ensures VNameLess(a, b) ==> a != b && !VNameLess(b, a)
    {
      StringTotal(a.signature, b.signature);
      StringTotal(a.corpus, b.corpus);
      StringTotal(a.path, b.path);
      StringTotal(a.root, b.root);
      StringTotal(a.language, b.language);
    }
    forall a, b, c | VNameLess(a, b) && VNameLess(b, c) ensures VNameLess(a, c) { VNameTransitive(a, b, c); }
  }

  lemma {:induction false} VNameTransitive(a: VName, b: VName, c: VName)
    requires VNameLess(a, b) && VNameLess(b, c)
    ensures VNameLess(a, c)
  {
    Column(a.signature, b.signature, c.signature);
    Column(a.corpus, b.corpus, c.corpus);
    Column(a.path, b.path, c.path);
    Column(a.root, b.root, c.root);
    Column(a.language, b.language, c.language);
  }

  lemma {:induction false} Column(a: string, b: string, c: string)
    ensures (StringLess(a, b) || a == b) && (StringLess(b, c) || b == c) ==>
      (StringLess(a, c) || a == c) && (a == c ==> a == b == c)
    ensures !StringLess(a, a)
  {
    StringTotal(a, b);
    StringTotal(a, a);
    if StringLess(a, b) && StringLess(b, c) {
      LexTransitive(Codes(a), Codes(b), Codes(c));
      StringTotal(a, c);
    }
    if StringLess(a, b) && StringLess(b, c) && a == c { StringTotal(a, b); }
  }

  lemma {:induction false} VNameLessIsAsymmetric()
    ensures forall a, b :: VNameLess(a, b) ==> !VNameLess(b, a) && a != b
  {
    VNameLessIsTotal();
  }

  ghost predicate IsFirst(s: set<VName>, x: VName) {
    x in s && forall y | y in s :: x == y || VNameLess(x, y)
  }

  lemma {:induction false} HasFirst(s: set<VName>) returns (x: VName)
    requires s != {}
    ensures IsFirst(s, x)
    decreases s
  {
    VNameLessIsTotal();
    var p :| p in s;
    var rest := s - {p};
    x := p;
    assert forall z | z in s :: z == p || z in rest;
    if rest != {} {
      var y := HasFirst(rest);
      if VNameLess(y, x) {
        x := y;
      } else {
        forall z | z in s ensures x == z || VNameLess(x, z) {
          assert VNameLess(x, y);
        }
      }
    }
  }

  /** The first element in VName order. */
  ghost function First(s: set<VName>): (x: VName)
    requires s != {}
    ensures IsFirst(s, x)
  {
    assert exists x :: IsFirst(s, x) by { var x := HasFirst(s); }
    var x :| IsFirst(s, x);
    x
  }

  lemma {:induction false} FirstIsUnique(s: set<VName>, x: VName, y: VName)
    requires IsFirst(s, x) && IsFirst(s, y)
    ensures x == y
  {
    VNameLessIsTotal();
  }
}
