/** src/gui/base.cc: transformation matrices of section 8.3.4 of ISO 32000-1, in exact arithmetic. */
module Matrices {
  import opened Helpers

  /** The first two columns of a 3x3 matrix whose third column is 0, 0, 1. */
  datatype Matrix = Matrix(a: real, b: real, c: real, d: real, e: real, f: real)

  datatype Vector = Vector(x: real, y: real)

  const IDENTITY := Matrix(1.0, 0.0, 0.0, 1.0, 0.0, 0.0)

  /** A row of two numbers times a column of two. */
  function Dot(x: real, y: real, p: real, q: real): real {
    x * p + y * q
  }

  function Mul(m: Matrix, n: Matrix): Matrix {
    Matrix(Dot(m.a, m.b, n.a, n.c), Dot(m.a, m.b, n.b, n.d),
           Dot(m.c, m.d, n.a, n.c), Dot(m.c, m.d, n.b, n.d),
           Dot(m.e, m.f, n.a, n.c) + n.e, Dot(m.e, m.f, n.b, n.d) + n.f)
  }

  function Apply(v: Vector, n: Matrix): Vector {
    Vector(Dot(v.x, v.y, n.a, n.c) + n.e, Dot(v.x, v.y, n.b, n.d) + n.f)
  }

  function Det(m: Matrix): real {
    m.a * m.d - m.b * m.c
  }

  function Over(x: real, det: real): real
    requires det != 0.0
  {
    x / det
  }

  /** Numerators of the two entries of a row, and of the row of offsets. */
  function NumX(o: Matrix, u: real, v: real): real {
    -o.c * v + u * o.d
  }

  function NumY(o: Matrix, u: real, v: real): real {
    o.a * v - o.b * u
  }

  function NumE(o: Matrix, n: Matrix): real {
    -(-o.c * o.f + o.c * n.f + o.e * o.d - n.e * o.d)
  }

  function NumF(o: Matrix, n: Matrix): real {
    o.b * o.e - o.a * o.f + o.a * n.f - o.b * n.e
  }

  function Div(o: Matrix, n: Matrix): Option<Matrix> {
    var det := Det(o);
    if det == 0.0 then None
    else Some(Matrix(Over(NumX(o, n.a, n.b), det), Over(NumY(o, n.a, n.b), det),
                     Over(NumX(o, n.c, n.d), det), Over(NumY(o, n.c, n.d), det),
                     Over(NumE(o, n), det), Over(NumF(o, n), det)))
  }

  // ----- script values: lists of any length -----

  /** The numbers of a list, padded with zeros to six. */
  function SixOf(list: seq<real>): Matrix {
    Matrix(At(list, 0), At(list, 1), At(list, 2), At(list, 3), At(list, 4), At(list, 5))
  }

  function At(list: seq<real>, i: nat): real {
    if i < |list| then list[i] else 0.0
  }

  function ListOf(m: Matrix): seq<real> {
    [m.a, m.b, m.c, m.d, m.e, m.f]
  }

  /** A list of at least six numbers is a matrix, one of two a vector, anything else cannot be multiplied. */
  function MulLists(m: seq<real>, n: seq<real>): Option<seq<real>> {
    if |m| >= 6 then Some(ListOf(Mul(SixOf(m), SixOf(n))))
    else if |m| == 2 then
      var v := Apply(Vector(m[0], m[1]), SixOf(n));
      Some([v.x, v.y])
    else None
  }

  function DivLists(o: seq<real>, n: seq<real>): Option<seq<real>> {
    match Div(SixOf(o), SixOf(n))
    case None => None
    case Some(r) => Some(ListOf(r))
  }

  // ----- laws -----

  lemma DotSum(x: real, y: real, x': real, y': real, p: real, q: real)
    ensures Dot(x + x', y + y', p, q) == Dot(x, y, p, q) + Dot(x', y', p, q)
  {
    assert (x + x') * p == x * p + x' * p;
    assert (y + y') * q == y * q + y' * q;
  }

  lemma Distribute(x: real, y: real, z: real)
    ensures (x + y) * z == x * z + y * z
    ensures (x - y) * z == x * z - y * z
  {
  }

  lemma Reorder(x: real, y: real, z: real)
    ensures (x * y) * z == x * (y * z) == (x * z) * y
  {
  }

  /** A row times two columns, times a column: the products can be grouped either way. */
  lemma DotDot(x: real, y: real, p: real, q: real, r: real, s: real, u: real, v: real)
    ensures Dot(Dot(x, y, p, r), Dot(x, y, q, s), u, v) == Dot(x, y, Dot(p, q, u, v), Dot(r, s, u, v))
  {
    Distribute(x * p, y * r, u);
    Distribute(x * q, y * s, v);
    Distribute(p * u, q * v, x);
    Distribute(r * u, s * v, y);
    Reorder(x, p, u);
    Reorder(x, q, v);
    Reorder(y, r, u);
    Reorder(y, s, v);
  }

  /** Applying a product is applying its factors one after the other. */
  lemma ApplyProduct(v: Vector, m: Matrix, n: Matrix)
    ensures Apply(v, Mul(m, n)) == Apply(Apply(v, m), n)
  {
    hide Dot;
    DotDot(v.x, v.y, m.a, m.b, m.c, m.d, n.a, n.c);
    DotDot(v.x, v.y, m.a, m.b, m.c, m.d, n.b, n.d);
    var x, y := Dot(v.x, v.y, m.a, m.c), Dot(v.x, v.y, m.b, m.d);
    DotSum(x, y, m.e, m.f, n.a, n.c);
    DotSum(x, y, m.e, m.f, n.b, n.d);
  }

  lemma MulAssociative(l: Matrix, m: Matrix, n: Matrix)
    ensures Mul(Mul(l, m), n) == Mul(l, Mul(m, n))
  {
    hide Dot;
    DotDot(l.a, l.b, m.a, m.b, m.c, m.d, n.a, n.c);
    DotDot(l.a, l.b, m.a, m.b, m.c, m.d, n.b, n.d);
    DotDot(l.c, l.d, m.a, m.b, m.c, m.d, n.a, n.c);
    DotDot(l.c, l.d, m.a, m.b, m.c, m.d, n.b, n.d);
    ApplyProduct(Vector(l.e, l.f), m, n);
  }

  /** The row x, y with x, y times the old matrix equal to u, v. */
  function RowX(o: Matrix, u: real, v: real): real
    requires Det(o) != 0.0
  {
    Over(NumX(o, u, v), Det(o))
  }

  function RowY(o: Matrix, u: real, v: real): real
    requires Det(o) != 0.0
  {
    Over(NumY(o, u, v), Det(o))
  }

  /** The offsets solve the same kind of row. */
  lemma OffsetNumerators(o: Matrix, n: Matrix)
    ensures NumE(o, n) == NumX(o, n.e - o.e, n.f - o.f)
    ensures NumF(o, n) == NumY(o, n.e - o.e, n.f - o.f)
  {
    Distribute(n.e, o.e, o.d);
    Distribute(n.f, o.f, o.c);
    Distribute(n.f, o.f, o.a);
    Distribute(n.e, o.e, o.b);
    assert -o.c * (n.f - o.f) == -o.c * n.f - -o.c * o.f;
    assert -o.c * n.f == -(o.c * n.f);
  }

  lemma DivByRows(o: Matrix, n: Matrix)
    requires Det(o) != 0.0
    ensures Div(o, n) == Some(Matrix(
      RowX(o, n.a, n.b), RowY(o, n.a, n.b), RowX(o, n.c, n.d), RowY(o, n.c, n.d),
      RowX(o, n.e - o.e, n.f - o.f), RowY(o, n.e - o.e, n.f - o.f)))
  {
    hide Over, NumX, NumY, NumE, NumF;
    OffsetNumerators(o, n);
  }

  lemma Cancel(x: real, y: real, det: real)
    requires det != 0.0 && x * det == y * det
    ensures x == y
  {
    assert (x - y) * det == 0.0;
  }

  lemma Quotient(x: real, det: real)
    requires det != 0.0
    ensures Over(x, det) * det == x
  {
  }

  lemma RowIdentity(o: Matrix, u: real, v: real)
    ensures Dot(NumX(o, u, v), NumY(o, u, v), o.a, o.c) == u * Det(o)
    ensures Dot(NumX(o, u, v), NumY(o, u, v), o.b, o.d) == v * Det(o)
  {
    var a, b, c, d := o.a, o.b, o.c, o.d;
    assert -c * v == -(v * c) && a * v == v * a && b * u == u * b;
    Distribute(u * d, v * c, a);
    Distribute(v * a, u * b, c);
    Distribute(u * d, v * c, b);
    Distribute(v * a, u * b, d);
    Reorder(u, d, a);
    Reorder(v, c, a);
    Reorder(v, a, c);
    Reorder(u, b, c);
    Reorder(u, d, b);
    Reorder(v, c, b);
    Reorder(v, a, d);
    Reorder(u, b, d);
    Distribute(a * d, b * c, u);
    Distribute(a * d, b * c, v);
  }

  lemma DotScaled(x: real, y: real, p: real, q: real, det: real, xs: real, ys: real)
    requires x * det == xs && y * det == ys
    ensures Dot(x, y, p, q) * det == Dot(xs, ys, p, q)
  {
    Distribute(x * p, y * q, det);
    Reorder(x, p, det);
    Reorder(y, q, det);
  }

  /** A row solves its equations. */
  lemma RowSolves(o: Matrix, u: real, v: real)
    requires Det(o) != 0.0
    ensures Dot(RowX(o, u, v), RowY(o, u, v), o.a, o.c) == u && Dot(RowX(o, u, v), RowY(o, u, v), o.b, o.d) == v
  {
    hide Dot, NumX, NumY, Over, Det;
    var det, x, y := Det(o), RowX(o, u, v), RowY(o, u, v);
    Quotient(NumX(o, u, v), det);
    Quotient(NumY(o, u, v), det);
    DotScaled(x, y, o.a, o.c, det, NumX(o, u, v), NumY(o, u, v));
    DotScaled(x, y, o.b, o.d, det, NumX(o, u, v), NumY(o, u, v));
    RowIdentity(o, u, v);
    Cancel(Dot(x, y, o.a, o.c), u, det);
    Cancel(Dot(x, y, o.b, o.d), v, det);
  }

  /** Only one row solves them. */
  lemma RowUnique(o: Matrix, x: real, y: real, u: real, v: real)
    requires Det(o) != 0.0 && Dot(x, y, o.a, o.c) == u && Dot(x, y, o.b, o.d) == v
    ensures x == RowX(o, u, v) && y == RowY(o, u, v)
  {
    hide Dot, NumX, NumY, Over, Det;
    var det := Det(o);
    Eliminate(o, x, y);
    Quotient(NumX(o, u, v), det);
    Quotient(NumY(o, u, v), det);
    Cancel(x, RowX(o, u, v), det);
    Cancel(y, RowY(o, u, v), det);
  }

  lemma Eliminate(o: Matrix, x: real, y: real)
    ensures x * Det(o) == NumX(o, Dot(x, y, o.a, o.c), Dot(x, y, o.b, o.d))
    ensures y * Det(o) == NumY(o, Dot(x, y, o.a, o.c), Dot(x, y, o.b, o.d))
  {
    var a, b, c, d := o.a, o.b, o.c, o.d;
    Distribute(x * a, y * c, d);
    Distribute(x * b, y * d, c);
    Distribute(x * b, y * d, a);
    Distribute(x * a, y * c, b);
    Reorder(x, a, d);
    Reorder(y, c, d);
    Reorder(x, b, c);
    Reorder(y, d, c);
    Reorder(y, d, a);
    Reorder(x, b, a);
    Reorder(x, a, b);
    Reorder(y, c, b);
    Distribute(a * d, b * c, x);
    Distribute(a * d, b * c, y);
    var u, v := x * a + y * c, x * b + y * d;
    assert -c * v == -(v * c) && a * v == v * a && b * u == u * b;
  }

  /** The quotient is the one solution, with itself on the left of the old matrix. */
  lemma DivUnique(o: Matrix, n: Matrix, r: Matrix)
    requires Det(o) != 0.0
    ensures Div(o, n) == Some(r) <==> Mul(r, o) == n
  {
    hide Det, Dot, Div, RowX, RowY;
    DivByRows(o, n);
    var u, v := n.e - o.e, n.f - o.f;
    RowSolves(o, n.a, n.b);
    RowSolves(o, n.c, n.d);
    RowSolves(o, u, v);
    if Mul(r, o) == n {
      RowUnique(o, r.a, r.b, n.a, n.b);
      RowUnique(o, r.c, r.d, n.c, n.d);
      RowUnique(o, r.e, r.f, u, v);
    }
  }

  /** Multiplying undoes dividing. */
  lemma MulAfterDiv(o: Matrix, n: Matrix)
    requires Det(o) != 0.0
    ensures Div(o, n).Some? && Mul(Div(o, n).value, o) == n
  {
    hide Dot, Mul;
    DivUnique(o, n, Div(o, n).value);
  }

  /** Dividing undoes multiplying from the left. */
  lemma DivAfterMul(m: Matrix, n: Matrix)
    requires Det(m) != 0.0
    ensures Div(m, Mul(n, m)) == Some(n)
  {
    hide Dot, Mul, Div, Det;
    DivUnique(m, Mul(n, m), n);
  }

  /** On script values: whatever the lists, a quotient times the old matrix is the new one, padded to six numbers, and
      there is none exactly for a singular old matrix. */
  lemma ListsMulAfterDiv(o: seq<real>, n: seq<real>)
    ensures DivLists(o, n).None? <==> Det(SixOf(o)) == 0.0
    ensures DivLists(o, n).Some? ==> MulLists(DivLists(o, n).value, o) == Some(ListOf(SixOf(n)))
  {
    hide Det, Mul;
    if Det(SixOf(o)) != 0.0 {
      MulAfterDiv(SixOf(o), SixOf(n));
      var r := Div(SixOf(o), SixOf(n)).value;
      assert SixOf(ListOf(r)) == r;
    }
  }

  /** Applying a matrix: the linear part, then the offsets. */
  lemma ApplySays(v: Vector, n: Matrix)
    ensures Apply(v, n).x == v.x * n.a + v.y * n.c + n.e && Apply(v, n).y == v.x * n.b + v.y * n.d + n.f
    ensures Apply(v, IDENTITY) == v && Apply(v, Matrix(1.0, 0.0, 0.0, 1.0, n.e, n.f)) == Vector(v.x + n.e, v.y + n.f)
  {
  }

  /** The offsets of a product are those of the left factor with the right one applied; the identity is neutral. */
  lemma OffsetsApplied(m: Matrix, n: Matrix)
    ensures Apply(Vector(m.e, m.f), n) == Vector(Mul(m, n).e, Mul(m, n).f)
    ensures Mul(IDENTITY, m) == m == Mul(m, IDENTITY)
  {
  }

  /** Which lists can be multiplied: six numbers or more on the left are a matrix, two a vector; numbers missing on the
      right are zeros, and further ones are not looked at. */
  lemma MulListsSays(m: seq<real>, n: seq<real>)
    ensures MulLists(m, n).None? <==> |m| < 6 && |m| != 2
    ensures |m| >= 6 ==> MulLists(m, n) == Some(ListOf(Mul(SixOf(m), SixOf(n))))
    ensures |m| == 2 ==>
      MulLists(m, n) == Some([Apply(Vector(m[0], m[1]), SixOf(n)).x, Apply(Vector(m[0], m[1]), SixOf(n)).y])
    ensures |n| < 6 ==> SixOf(n) == SixOf(n + [0.0])
    ensures |n| >= 6 ==> SixOf(n) == Matrix(n[0], n[1], n[2], n[3], n[4], n[5])
    ensures |n| >= 6 ==> ListOf(SixOf(n)) == n[..6]
  {
    hide Mul, Apply;
  }

  /** Written the other way round, the equation holds exactly for an old and a new matrix that commute. */
  lemma OtherOrderIff(o: Matrix, n: Matrix)
    requires Det(o) != 0.0
    ensures Div(o, n).Some? && (Mul(o, Div(o, n).value) == n <==> Mul(o, n) == Mul(n, o))
  {
    hide Det, Dot, Mul, Div;
    MulAfterDiv(o, n);
    var r := Div(o, n).value;
    MulAssociative(o, r, o);
    if Mul(o, n) == Mul(n, o) {
      DivAfterMul(o, Mul(o, r));
      DivAfterMul(o, n);
    }
  }

  const STRETCH := Matrix(2.0, 0.0, 0.0, 1.0, 0.0, 0.0)
  const EXCHANGE := Matrix(0.0, 1.0, 1.0, 0.0, 0.0, 0.0)

  lemma StretchThenExchange()
    ensures Det(STRETCH) != 0.0 && Mul(STRETCH, EXCHANGE) != Mul(EXCHANGE, STRETCH)
  {
    assert Mul(STRETCH, EXCHANGE).b == 2.0 && Mul(EXCHANGE, STRETCH).b == 1.0;
  }

  /** A stretched axis and exchanged axes do not commute, so the other way round the equation fails for them. */
  lemma OtherOrderFails()
    ensures Det(STRETCH) != 0.0 && Mul(STRETCH, Div(STRETCH, EXCHANGE).value) != EXCHANGE
  {
    hide Det, Mul, Div;
    StretchThenExchange();
    OtherOrderIff(STRETCH, EXCHANGE);
  }

  /** No quotient is given for a singular matrix, even where the equation has a solution. */
  lemma SingularMayBeSolvable(m: Matrix)
    requires Det(m) == 0.0
    ensures Div(m, m) == None && Mul(IDENTITY, m) == m
  {
  }

  /** What the numerators of a row have to be for a singular old matrix. */
  predicate RowSolvable(o: Matrix, u: real, v: real) {
    && NumX(o, u, v) == 0.0 && NumY(o, u, v) == 0.0
    && (o.a == 0.0 && o.b == 0.0 && o.c == 0.0 && o.d == 0.0 ==> u == 0.0 && v == 0.0)
  }

  lemma Proportional(p: real, q: real, u: real, v: real)
    requires p != 0.0 && p * v == u * q
    ensures Over(u, p) * p == u && Over(u, p) * q == v
  {
    hide Over;
    var x := Over(u, p);
    Quotient(u, p);
    Reorder(x, q, p);
    Cancel(x * q, v, p);
  }

  lemma RowProportions(o: Matrix, u: real, v: real)
    requires RowSolvable(o, u, v)
    ensures o.a * v == u * o.b && o.b * u == v * o.a && o.c * v == u * o.d && o.d * u == v * o.c
  {
  }

  /** A singular row that meets the condition is solved by a quotient of the new row by some entry of the old matrix. */
  lemma RowOfSingular(o: Matrix, u: real, v: real) returns (x: real, y: real)
    requires RowSolvable(o, u, v)
    ensures Dot(x, y, o.a, o.c) == u && Dot(x, y, o.b, o.d) == v
  {
    RowProportions(o, u, v);
    hide Over, NumX, NumY;
    x, y := 0.0, 0.0;
    if o.a != 0.0 {
      Proportional(o.a, o.b, u, v);
      x := Over(u, o.a);
    } else if o.b != 0.0 {
      Proportional(o.b, o.a, v, u);
      x := Over(v, o.b);
    } else if o.c != 0.0 {
      Proportional(o.c, o.d, u, v);
      y := Over(u, o.c);
    } else if o.d != 0.0 {
      Proportional(o.d, o.c, v, u);
      y := Over(v, o.d);
    }
  }

  /** A row that can be solved for a singular old matrix meets the condition. */
  lemma SingularRow(o: Matrix, x: real, y: real)
    requires Det(o) == 0.0
    ensures RowSolvable(o, Dot(x, y, o.a, o.c), Dot(x, y, o.b, o.d))
  {
    hide Det, NumX, NumY;
    Eliminate(o, x, y);
  }

  /** When the equation has a solution although the old matrix is singular, so that none is returned: exactly if all six
      numerators vanish and, should the old matrix hold zeros only, the three rows to solve do too. */
  lemma SingularSolvableIff(o: Matrix, n: Matrix)
    requires Det(o) == 0.0
    ensures (exists r :: Mul(r, o) == n) <==>
      RowSolvable(o, n.a, n.b) && RowSolvable(o, n.c, n.d) && RowSolvable(o, n.e - o.e, n.f - o.f)
    ensures NumE(o, n) == NumX(o, n.e - o.e, n.f - o.f) && NumF(o, n) == NumY(o, n.e - o.e, n.f - o.f)
  {
    hide Det, Dot, NumX, NumY, NumE, NumF, RowSolvable;
    OffsetNumerators(o, n);
    if r :| Mul(r, o) == n {
      SingularRow(o, r.a, r.b);
      SingularRow(o, r.c, r.d);
      SingularRow(o, r.e, r.f);
    }
    if RowSolvable(o, n.a, n.b) && RowSolvable(o, n.c, n.d) && RowSolvable(o, n.e - o.e, n.f - o.f) {
      var a, b := RowOfSingular(o, n.a, n.b);
      var c, d := RowOfSingular(o, n.c, n.d);
      var e, f := RowOfSingular(o, n.e - o.e, n.f - o.f);
      assert Mul(Matrix(a, b, c, d, e, f), o) == n;
    }
  }
}
