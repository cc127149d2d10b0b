/** The service catalogue (frontend/src/pages/ServicesCatalogPage.jsx): filter, then the engine's stable sort
    (ECMA-262 2023, section 23.1.3.30). */
module Catalogo {
  import opened Basics

  datatype Servicio = Servicio(
    id: int, nombre: string, categoria: string, descripcion: string, precio: int, duracionMinutos: int)

  datatype Orden = PrecioAsc | PrecioDesc | Duracion | Defecto

  // ---------- what matches ----------

  function Minuscula(c: char): char { if 'A' <= c <= 'Z' then (c as int + 32) as char else c }

  function Minusculas(s: string): string { seq(|s|, i requires 0 <= i < |s| => Minuscula(s[i])) }

  predicate Contiene(s: string, t: string) { exists i :: 0 <= i <= |s| && t <= s[i..] }

  predicate Coincide(s: Servicio, categoria: string, busqueda: string) {
    (categoria == "Todos" || s.categoria == categoria) &&
    (Contiene(Minusculas(s.nombre), Minusculas(busqueda)) ||
     (s.descripcion != "" && Contiene(Minusculas(s.descripcion), Minusculas(busqueda))))
  }

  // ---------- the order ----------

  /** The comparator of the page; negative, zero or positive. */
  function Comparar(a: Servicio, b: Servicio, orden: Orden): int {
    match orden
    case PrecioAsc => a.precio - b.precio
    case PrecioDesc => b.precio - a.precio
    case Duracion => a.duracionMinutos - b.duracionMinutos
    case Defecto => 0
  }

  lemma CompararIsConsistent(a: Servicio, b: Servicio, c: Servicio, orden: Orden)
    ensures Comparar(a, b, orden) == -Comparar(b, a, orden)
    ensures Comparar(a, b, orden) <= 0 && Comparar(b, c, orden) <= 0 ==> Comparar(a, c, orden) <= 0
  {}

  /** `x` goes behind the elements that do not exceed it. */
  function Insertado(s: seq<Servicio>, x: Servicio, orden: Orden): seq<Servicio> {
    if s == [] || Comparar(s[|s| - 1], x, orden) <= 0 then s + [x]
    else Insertado(s[..|s| - 1], x, orden) + [s[|s| - 1]]
  }

  /** A stable sort; by uniqueness below it equals the engine's. */
  function Ordenado(s: seq<Servicio>, orden: Orden): seq<Servicio> {
    if s == [] then [] else Insertado(Ordenado(s[..|s| - 1], orden), s[|s| - 1], orden)
  }

  /** What the page shows. */
  function Mostrados(servicios: seq<Servicio>, categoria: string, busqueda: string, orden: Orden): seq<Servicio> {
    Ordenado(Filter(servicios, Prueba(categoria, busqueda)), orden)
  }

  function Prueba(categoria: string, busqueda: string): Servicio -> bool {
    (s: Servicio) => Coincide(s, categoria, busqueda)
  }

  // ---------- the specification of a stable sort ----------

  ghost predicate EstaOrdenado(s: seq<Servicio>, orden: Orden) {
    forall i, j :: 0 <= i < j < |s| ==> Comparar(s[i], s[j], orden) <= 0
  }

  /** The elements of `s` that compare equal to `x`, in order. */
  function Iguales(s: seq<Servicio>, x: Servicio, orden: Orden): seq<Servicio> {
    if s == [] then []
    else
      var c := s[|s| - 1];
      if Comparar(c, x, orden) == 0 then Iguales(s[..|s| - 1], x, orden) + [c] else Iguales(s[..|s| - 1], x, orden)
  }

  /** `t` is `s` sorted, and elements that compare equal keep the order they had in `s`. */
  ghost predicate EsOrdenEstable(s: seq<Servicio>, t: seq<Servicio>, orden: Orden) {
    EstaOrdenado(t, orden) && forall x :: Iguales(t, x, orden) == Iguales(s, x, orden)
  }

  lemma IgualesSnoc(s: seq<Servicio>, c: Servicio, x: Servicio, orden: Orden)
    ensures Iguales(s + [c], x, orden)
            == if Comparar(c, x, orden) == 0 then Iguales(s, x, orden) + [c] else Iguales(s, x, orden)
  {
    assert (s + [c])[..|s + [c]| - 1] == s;
  }

  lemma {:induction false} IgualesMembers(s: seq<Servicio>, x: Servicio, orden: Orden)
    ensures forall c :: c in Iguales(s, x, orden) <==> c in s && Comparar(c, x, orden) == 0
    ensures forall c :: multiset(Iguales(s, x, orden))[c] == if Comparar(c, x, orden) == 0 then multiset(s)[c] else 0
  {
    if s != [] {
      assert s == s[..|s| - 1] + [s[|s| - 1]];
      IgualesMembers(s[..|s| - 1], x, orden);
    }
  }

  lemma {:induction false} InsertadoIguales(s: seq<Servicio>, c: Servicio, x: Servicio, orden: Orden)
    requires EstaOrdenado(s, orden)
    ensures Iguales(Insertado(s, c, orden), x, orden) == Iguales(s + [c], x, orden)
  {
    if s != [] && Comparar(s[|s| - 1], c, orden) > 0 {
      var u, d := s[..|s| - 1], s[|s| - 1];
      InsertadoIguales(u, c, x, orden);
      assert s == u + [d];
      IgualesSnoc(Insertado(u, c, orden), d, x, orden);
      IgualesSnoc(u, c, x, orden);
      IgualesSnoc(s, c, x, orden);
      IgualesSnoc(u, d, x, orden);
    }
  }

  lemma {:induction false} InsertadoMembers(s: seq<Servicio>, c: Servicio, orden: Orden)
    ensures multiset(Insertado(s, c, orden)) == multiset(s) + multiset{c}
  {
    if s != [] && Comparar(s[|s| - 1], c, orden) > 0 {
      var u, d := s[..|s| - 1], s[|s| - 1];
      InsertadoMembers(u, c, orden);
      assert s == u + [d];
    }
  }

  lemma OrdenadoSnoc(v: seq<Servicio>, d: Servicio, orden: Orden)
    requires EstaOrdenado(v, orden)
    requires forall c :: c in v ==> Comparar(c, d, orden) <= 0
    ensures EstaOrdenado(v + [d], orden)
  {
    hide Comparar;
    forall i | 0 <= i < |v|
      ensures Comparar(v[i], d, orden) <= 0
    {
      assert v[i] in v;
    }
  }

  /** Everything before a position of a sorted list is at most the element there. */
  lemma BelowAt(s: seq<Servicio>, n: nat, orden: Orden, c: Servicio)
    requires EstaOrdenado(s, orden) && n < |s| && c in s[..n]
    ensures Comparar(c, s[n], orden) <= 0
  {
    hide Comparar;
    var j :| 0 <= j < n && s[..n][j] == c;
    assert s[j] == c;
  }

  lemma {:induction false} InsertadoOrdenado(s: seq<Servicio>, c: Servicio, orden: Orden)
    requires EstaOrdenado(s, orden)
    ensures EstaOrdenado(Insertado(s, c, orden), orden)
  {
    hide Comparar;
    if s == [] {
      OrdenadoSnoc([], c, orden);
    } else {
      var n := |s| - 1;
      var u, d := s[..n], s[n];
      assert s == u + [d];
      if Comparar(d, c, orden) <= 0 {
        forall x | x in s
          ensures Comparar(x, c, orden) <= 0
        {
          if x in u { BelowAt(s, n, orden, x); CompararIsConsistent(x, d, c, orden); }
        }
        OrdenadoSnoc(s, c, orden);
      } else {
        InsertadoOrdenado(u, c, orden);
        InsertadoMembers(u, c, orden);
        CompararIsConsistent(c, d, d, orden);
        forall x | x in Insertado(u, c, orden)
          ensures Comparar(x, d, orden) <= 0
        {
          assert x in multiset(Insertado(u, c, orden));
          if x != c { assert x in multiset(u); BelowAt(s, n, orden, x); }
        }
        OrdenadoSnoc(Insertado(u, c, orden), d, orden);
      }
    }
  }

  /** The sort is a sorted, stable arrangement of its input. */
  lemma {:induction false} OrdenadoIsStable(s: seq<Servicio>, orden: Orden)
    ensures EsOrdenEstable(s, Ordenado(s, orden), orden)
    ensures multiset(Ordenado(s, orden)) == multiset(s)
  {
    if s != [] {
      var u, c := s[..|s| - 1], s[|s| - 1];
      assert s == u + [c];
      OrdenadoIsStable(u, orden);
      var v := Ordenado(u, orden);
      InsertadoOrdenado(v, c, orden);
      InsertadoMembers(v, c, orden);
      forall x
        ensures Iguales(Ordenado(s, orden), x, orden) == Iguales(s, x, orden)
      {
        InsertadoIguales(v, c, x, orden);
        IgualesSnoc(v, c, x, orden);
        IgualesSnoc(u, c, x, orden);
      }
    }
  }

  /** Elements that compare equal to the last of a sorted list are all at its end. */
  lemma LastOfIguales(t: seq<Servicio>, orden: Orden)
    requires t != []
    ensures var x := t[|t| - 1];
            Iguales(t, x, orden) != [] && Iguales(t, x, orden)[|Iguales(t, x, orden)| - 1] == x
  {}

  lemma SameMembers(t: seq<Servicio>, u: seq<Servicio>, orden: Orden)
    requires forall x :: Iguales(t, x, orden) == Iguales(u, x, orden)
    ensures forall c :: c in t <==> c in u
  {
    forall c
      ensures c in t <==> c in u
    {
      CompararIsConsistent(c, c, c, orden);
      IgualesMembers(t, c, orden);
      IgualesMembers(u, c, orden);
      assert Iguales(t, c, orden) == Iguales(u, c, orden);
    }
  }

  lemma WithoutLast(t: seq<Servicio>, u: seq<Servicio>, x: Servicio, z: Servicio, orden: Orden)
    requires Iguales(t + [x], z, orden) == Iguales(u + [x], z, orden)
    ensures Iguales(t, z, orden) == Iguales(u, z, orden)
  {
    hide Comparar, Iguales;
    IgualesSnoc(t, x, z, orden);
    IgualesSnoc(u, x, z, orden);
    if Comparar(x, z, orden) == 0 {
      DropLast(Iguales(t, z, orden), x, Iguales(u, z, orden), x);
    }
  }

  /** Two sorted lists with the same groups of equal elements are the same list. */
  lemma {:induction false} StableSortUnique(t: seq<Servicio>, u: seq<Servicio>, orden: Orden)
    requires EstaOrdenado(t, orden) && EstaOrdenado(u, orden)
    requires forall x :: Iguales(t, x, orden) == Iguales(u, x, orden)
    ensures t == u
  {
    hide Comparar, Iguales;
    SameMembers(t, u, orden);
    if t == [] {
      if u != [] {
        FirstIsMember(u);
      }
    } else {
      FirstIsMember(t);
      var m, n := |t| - 1, |u| - 1;
      SameLast(t, u, orden);
      var x := t[m];
      assert t == t[..m] + [x] && u == u[..n] + [x];
      forall z
        ensures Iguales(t[..m], z, orden) == Iguales(u[..n], z, orden)
      {
        assert Iguales(t, z, orden) == Iguales(u, z, orden);
        WithoutLast(t[..m], u[..n], x, z, orden);
      }
      StableSortUnique(t[..m], u[..n], orden);
    }
  }

  lemma FirstIsMember(u: seq<Servicio>)
    requires u != []
    ensures exists c :: c in u
  {
    assert u[0] in u;
  }

  lemma DropLast(a: seq<Servicio>, x: Servicio, b: seq<Servicio>, y: Servicio)
    requires a + [x] == b + [y]
    ensures a == b
  {
    assert a == (a + [x])[..|a + [x]| - 1] == (b + [y])[..|b + [y]| - 1] == b;
  }

  lemma SameLast(t: seq<Servicio>, u: seq<Servicio>, orden: Orden)
    requires t != [] && u != []
    requires EstaOrdenado(t, orden) && EstaOrdenado(u, orden)
    requires forall x :: Iguales(t, x, orden) == Iguales(u, x, orden)
    requires forall c :: c in t <==> c in u
    ensures t[|t| - 1] == u[|u| - 1]
  {
    var x, y := t[|t| - 1], u[|u| - 1];
    assert x in t && y in u;
    BelowLast(t, y, orden);
    BelowLast(u, x, orden);
    CompararIsConsistent(x, y, x, orden);
    LastOfIguales(t, orden);
    LastOfIguales(u, orden);
    SameGroup(t, x, y, orden);
    SameGroup(u, x, y, orden);
  }

  lemma BelowLast(t: seq<Servicio>, y: Servicio, orden: Orden)
    requires t != [] && EstaOrdenado(t, orden) && y in t
    ensures Comparar(y, t[|t| - 1], orden) <= 0
  {
    var j :| 0 <= j < |t| && t[j] == y;
    CompararIsConsistent(y, y, y, orden);
  }

  lemma {:induction false} SameGroup(t: seq<Servicio>, x: Servicio, y: Servicio, orden: Orden)
    requires Comparar(x, y, orden) == 0
    ensures Iguales(t, x, orden) == Iguales(t, y, orden)
  {
    if t != [] {
      SameGroup(t[..|t| - 1], x, y, orden);
    }
  }

  /** Any list that is a stable sort of the matching services is what the page shows. */
  lemma MostradosIsTheStableSort(
    servicios: seq<Servicio>, categoria: string, busqueda: string, orden: Orden, t: seq<Servicio>)
    ensures EsOrdenEstable(Filter(servicios, Prueba(categoria, busqueda)), t, orden)
            <==> t == Mostrados(servicios, categoria, busqueda, orden)
  {
    var s := Filter(servicios, Prueba(categoria, busqueda));
    OrdenadoIsStable(s, orden);
    if EsOrdenEstable(s, t, orden) {
      StableSortUnique(t, Ordenado(s, orden), orden);
    }
  }

  /** The page shows exactly the matching services, each as often as it occurs. */
  lemma MostradosIsPermutation(servicios: seq<Servicio>, categoria: string, busqueda: string, orden: Orden, c: Servicio)
    ensures multiset(Mostrados(servicios, categoria, busqueda, orden))[c]
            == if Coincide(c, categoria, busqueda) then multiset(servicios)[c] else 0
  {
    OrdenadoIsStable(Filter(servicios, Prueba(categoria, busqueda)), orden);
    FilterCount(servicios, Prueba(categoria, busqueda), c);
  }

  lemma {:induction false} FilterCount(s: seq<Servicio>, p: Servicio -> bool, c: Servicio)
    ensures multiset(Filter(s, p))[c] == if p(c) then multiset(s)[c] else 0
  {
    if s != [] {
      assert s == s[..|s| - 1] + [s[|s| - 1]];
      FilterCount(s[..|s| - 1], p, c);
    }
  }

  // ---------- the order and the match in terms of the services ----------

  lemma {:induction false} IgualesByPrice(s: seq<Servicio>, x: Servicio, v: int)
    requires x.precio == v
    ensures Iguales(s, x, PrecioAsc) == Filter(s, (y: Servicio) => y.precio == v)
    ensures Iguales(s, x, PrecioDesc) == Filter(s, (y: Servicio) => y.precio == v)
  {
    if s != [] {
      IgualesByPrice(s[..|s| - 1], x, v);
    }
  }

  lemma {:induction false} IgualesByDuration(s: seq<Servicio>, x: Servicio, v: int)
    requires x.duracionMinutos == v
    ensures Iguales(s, x, Duracion) == Filter(s, (y: Servicio) => y.duracionMinutos == v)
  {
    if s != [] {
      IgualesByDuration(s[..|s| - 1], x, v);
    }
  }

  /** By price upward: never a dearer service before a cheaper one, and services of one price in source order. */
  lemma PrecioAscOrder(servicios: seq<Servicio>, categoria: string, busqueda: string, v: int)
    ensures var m := Mostrados(servicios, categoria, busqueda, PrecioAsc);
            (forall i, j :: 0 <= i < j < |m| ==> m[i].precio <= m[j].precio) &&
            Filter(m, (y: Servicio) => y.precio == v)
            == Filter(Filter(servicios, Prueba(categoria, busqueda)), (y: Servicio) => y.precio == v)
  {
    hide Filter;
    var s, x := Filter(servicios, Prueba(categoria, busqueda)), Servicio(0, "", "", "", v, 0);
    OrdenadoIsStable(s, PrecioAsc);
    IgualesByPrice(s, x, v);
    IgualesByPrice(Ordenado(s, PrecioAsc), x, v);
  }

  /** By price downward. */
  lemma PrecioDescOrder(servicios: seq<Servicio>, categoria: string, busqueda: string, v: int)
    ensures var m := Mostrados(servicios, categoria, busqueda, PrecioDesc);
            (forall i, j :: 0 <= i < j < |m| ==> m[i].precio >= m[j].precio) &&
            Filter(m, (y: Servicio) => y.precio == v)
            == Filter(Filter(servicios, Prueba(categoria, busqueda)), (y: Servicio) => y.precio == v)
  {
    hide Filter;
    var s, x := Filter(servicios, Prueba(categoria, busqueda)), Servicio(0, "", "", "", v, 0);
    OrdenadoIsStable(s, PrecioDesc);
    IgualesByPrice(s, x, v);
    IgualesByPrice(Ordenado(s, PrecioDesc), x, v);
  }

  /** By duration upward. */
  lemma DuracionOrder(servicios: seq<Servicio>, categoria: string, busqueda: string, v: int)
    ensures var m := Mostrados(servicios, categoria, busqueda, Duracion);
            (forall i, j :: 0 <= i < j < |m| ==> m[i].duracionMinutos <= m[j].duracionMinutos) &&
            Filter(m, (y: Servicio) => y.duracionMinutos == v)
            == Filter(Filter(servicios, Prueba(categoria, busqueda)), (y: Servicio) => y.duracionMinutos == v)
  {
    hide Filter;
    var s, x := Filter(servicios, Prueba(categoria, busqueda)), Servicio(0, "", "", "", 0, v);
    OrdenadoIsStable(s, Duracion);
    IgualesByDuration(s, x, v);
    IgualesByDuration(Ordenado(s, Duracion), x, v);
  }

  lemma MinusculaSame(c: char, d: char)
    ensures Minuscula(c) == Minuscula(d) <==> SameLetter(c, d)
  {}

  lemma MinusculasSame(s: string, t: string)
    ensures Minusculas(s) == Minusculas(t) <==> SameText(s, t)
  {
    hide Minuscula, SameLetter;
    assert |Minusculas(s)| == |s| && |Minusculas(t)| == |t|;
    if Minusculas(s) == Minusculas(t) {
      forall i | 0 <= i < |s|
        ensures SameLetter(s[i], t[i])
      {
        assert Minusculas(s)[i] == Minusculas(t)[i];
        MinusculaSame(s[i], t[i]);
      }
    }
    if SameText(s, t) {
      forall i | 0 <= i < |s|
        ensures Minuscula(s[i]) == Minuscula(t[i])
      {
        MinusculaSame(s[i], t[i]);
      }
    }
  }

  /** The text `t` stands at position `i` of `s`, up to case. */
  ghost predicate ApareceEn(s: string, t: string, i: int) {
    0 <= i <= |s| - |t| && SameText(s[i..i + |t|], t)
  }

  /** The text `t` stands somewhere in `s`, up to case. */
  ghost predicate Aparece(s: string, t: string) { exists i :: ApareceEn(s, t, i) }

  lemma PrefixAt(s: string, t: string, i: nat)
    requires i <= |s|
    ensures Minusculas(t) <= Minusculas(s)[i..] <==> ApareceEn(s, t, i)
  {
    hide SameText, Minuscula;
    var u, v := Minusculas(s), Minusculas(t);
    assert |u| == |s| && |v| == |t|;
    if i <= |s| - |t| {
      assert u[i..i + |t|] == Minusculas(s[i..i + |t|]);
      assert u[i..][..|t|] == u[i..i + |t|];
      MinusculasSame(s[i..i + |t|], t);
    }
  }

  lemma ContieneExactlyWhen(s: string, t: string)
    ensures Contiene(Minusculas(s), Minusculas(t)) <==> Aparece(s, t)
  {
    var u, v := Minusculas(s), Minusculas(t);
    assert |u| == |s|;
    hide ApareceEn, Minusculas;
    if Contiene(u, v) {
      var i :| 0 <= i <= |u| && v <= u[i..];
      PrefixAt(s, t, i);
    }
    if Aparece(s, t) {
      var i :| ApareceEn(s, t, i);
      assert 0 <= i <= |s| by { Inside(s, t, i); }
      PrefixAt(s, t, i);
    }
  }

  lemma Inside(s: string, t: string, i: int)
    requires ApareceEn(s, t, i)
    ensures 0 <= i <= |s|
  {}

  /** A service matches exactly when it is of the chosen category, or all are wanted, and the search text stands in its
      name or its description, whatever the case. */
  lemma CoincideExactlyWhen(s: Servicio, categoria: string, busqueda: string)
    ensures Coincide(s, categoria, busqueda) <==>
            (categoria == "Todos" || s.categoria == categoria) &&
            (Aparece(s.nombre, busqueda) || Aparece(s.descripcion, busqueda))
  {
    hide Contiene, Aparece;
    ContieneExactlyWhen(s.nombre, busqueda);
    ContieneExactlyWhen(s.descripcion, busqueda);
    if s.descripcion == "" && Aparece("", busqueda) {
      EmptyInEvery(s.nombre, busqueda);
    }
  }

  lemma EmptyInEvery(s: string, t: string)
    requires Aparece("", t)
    ensures Aparece(s, t)
  {
    var i :| ApareceEn("", t, i);
    assert t == "" && ApareceEn(s, t, 0);
  }

  // ---------- consequences ----------

  /** The default order keeps the order of the source. */
  lemma DefectoKeepsOrder(servicios: seq<Servicio>, categoria: string, busqueda: string)
    ensures Mostrados(servicios, categoria, busqueda, Defecto) == Filter(servicios, Prueba(categoria, busqueda))
  {
    MostradosIsTheStableSort(servicios, categoria, busqueda, Defecto, Filter(servicios, Prueba(categoria, busqueda)));
  }

  lemma {:induction false} FilterOrdenado(s: seq<Servicio>, p: Servicio -> bool, orden: Orden)
    requires EstaOrdenado(s, orden)
    ensures EstaOrdenado(Filter(s, p), orden)
  {
    if s != [] {
      var u, c := s[..|s| - 1], s[|s| - 1];
      FilterOrdenado(u, p, orden);
      FilterMembers(u, p);
      forall i | 0 <= i < |Filter(u, p)|
        ensures Comparar(Filter(u, p)[i], c, orden) <= 0
      {
        var d := Filter(u, p)[i];
        assert d in u;
        var j :| 0 <= j < |u| && u[j] == d;
        assert s[j] == d;
      }
    }
  }

  lemma {:induction false} IgualesFilter(s: seq<Servicio>, p: Servicio -> bool, x: Servicio, orden: Orden)
    ensures Iguales(Filter(s, p), x, orden) == Filter(Iguales(s, x, orden), p)
  {
    if s != [] {
      var u, c := s[..|s| - 1], s[|s| - 1];
      IgualesFilter(u, p, x, orden);
      IgualesSnoc(Filter(u, p), c, x, orden);
      FilterSnoc(Iguales(u, x, orden), c, p);
    }
  }

  /** Filtering commutes with the stable sort. */
  lemma FilterCommutesWithSort(s: seq<Servicio>, p: Servicio -> bool, orden: Orden)
    ensures Filter(Ordenado(s, orden), p) == Ordenado(Filter(s, p), orden)
  {
    OrdenadoIsStable(s, orden);
    OrdenadoIsStable(Filter(s, p), orden);
    FilterOrdenado(Ordenado(s, orden), p, orden);
    forall x
      ensures Iguales(Filter(Ordenado(s, orden), p), x, orden) == Iguales(Ordenado(Filter(s, p), orden), x, orden)
    {
      IgualesFilter(Ordenado(s, orden), p, x, orden);
      IgualesFilter(s, p, x, orden);
    }
    StableSortUnique(Filter(Ordenado(s, orden), p), Ordenado(Filter(s, p), orden), orden);
  }
}
