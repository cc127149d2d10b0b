/** Discount arithmetic and coupons of frontend/src/pages/BookingPage.jsx, over exact numbers. */
module Precios {
  import opened Basics

  /** Math.round: to the nearest integer, halves upward (ECMA-262 2023, section 21.3.2.28). */
  function Redondeo(x: real): int { (x + 0.5).Floor }

  function MontoDescuento(precioBase: int, porcentaje: int): int {
    Redondeo(precioBase as real * (porcentaje as real / 100.0))
  }

  function TotalPagar(precioBase: int, porcentaje: int): int { precioBase - MontoDescuento(precioBase, porcentaje) }

  /** The discount is the integer within half a unit of the exact percentage, the upper one on a tie. */
  lemma DescuentoIsNearest(precio: int, porcentaje: int)
    ensures -100 < 200 * MontoDescuento(precio, porcentaje) - 2 * (precio * porcentaje) <= 100
  {
    var m, x := MontoDescuento(precio, porcentaje), precio as real * (porcentaje as real / 100.0);
    assert 100.0 * x == (precio * porcentaje) as real;
    assert m as real <= x + 0.5 < (m + 1) as real;
    assert (200 * m) as real <= (2 * (precio * porcentaje) + 100) as real;
    assert (2 * (precio * porcentaje) + 100) as real < (200 * m + 200) as real;
  }

  lemma PartOf(precio: nat, porcentaje: nat)
    requires porcentaje <= 100
    ensures 0 <= precio * porcentaje <= 100 * precio
    ensures precio * (100 - porcentaje) == 100 * precio - precio * porcentaje
  {}

  /** For percentages in 0..100: parts add up to the price, both lie between 0 and the price, and the total is within
      half a peso of the exact one. */
  lemma DescuentoAcotado(precio: nat, porcentaje: nat)
    requires porcentaje <= 100
    ensures MontoDescuento(precio, porcentaje) + TotalPagar(precio, porcentaje) == precio
    ensures 0 <= MontoDescuento(precio, porcentaje) <= precio
    ensures 0 <= TotalPagar(precio, porcentaje) <= precio
    ensures -50 <= 100 * TotalPagar(precio, porcentaje) - precio * (100 - porcentaje) < 50
  {
    hide MontoDescuento;
    DescuentoIsNearest(precio, porcentaje);
    PartOf(precio, porcentaje);
  }

  /** A higher percentage never gives a higher total. */
  lemma TotalMonotone(precio: nat, p: int, q: int)
    requires p <= q
    ensures TotalPagar(precio, q) <= TotalPagar(precio, p)
  {
    hide MontoDescuento;
    DescuentoIsNearest(precio, p);
    DescuentoIsNearest(precio, q);
    assert precio * p <= precio * q;
  }

  /** With any percentage from 0 up, the total stays non-negative exactly while the excess over 100% is less than half
      a peso; the form does not stop higher percentages. */
  lemma TotalNonNegativeExactlyWhen(precio: nat, porcentaje: nat)
    ensures TotalPagar(precio, porcentaje) >= 0 <==> precio * (porcentaje - 100) < 50
  {
    hide MontoDescuento;
    DescuentoIsNearest(precio, porcentaje);
    assert precio * (porcentaje - 100) == precio * porcentaje - 100 * precio;
  }

  // ---------- coupons ----------

  /** A promotion; `activo` is `None` when the record has no such field. */
  datatype Promo = Promo(codigo: string, activo: Option<bool>, descuentoPorcentaje: int)

  /** White space and line ends, which trim removes (ECMA-262 2023, section 22.1.3.32.1). */
  predicate EsBlanco(c: char) {
    '\U{9}' <= c <= '\U{d}' || c == ' ' || c == '\U{a0}' || c == '\U{1680}' || '\U{2000}' <= c <= '\U{200a}' ||
    c == '\U{2028}' || c == '\U{2029}' || c == '\U{202f}' || c == '\U{205f}' || c == '\U{3000}' || c == '\U{feff}'
  }

  /** Their code points: tab to carriage return, the spaces, the separators and the byte order mark. */
  lemma BlankCodePoints(c: char)
    ensures EsBlanco(c) <==>
            c as int in {9, 10, 11, 12, 13, 0x20, 0xa0, 0x1680, 0x2000, 0x2001, 0x2002, 0x2003, 0x2004, 0x2005, 0x2006,
                         0x2007, 0x2008, 0x2009, 0x200a, 0x2028, 0x2029, 0x202f, 0x205f, 0x3000, 0xfeff}
  {}

  predicate EnBlanco(s: string) { forall i :: 0 <= i < |s| ==> EsBlanco(s[i]) }

  function Trim(s: string): string {
    if s != "" && EsBlanco(s[0]) then Trim(s[1..])
    else if s != "" && EsBlanco(s[|s| - 1]) then Trim(s[..|s| - 1])
    else s
  }

  function Mayuscula(c: char): char { if 'a' <= c <= 'z' then (c as int - 32) as char else c }

  function Mayusculas(s: string): string { seq(|s|, i requires 0 <= i < |s| => Mayuscula(s[i])) }

  function Normal(s: string): string { Mayusculas(Trim(s)) }

  predicate Vale(p: Promo, codigo: string) { Normal(p.codigo) == Normal(codigo) && p.activo != Some(false) }

  lemma {:induction false} TrimBlank(s: string)
    ensures Trim(s) == "" <==> EnBlanco(s)
    decreases |s|
  {
    hide EsBlanco;
    if s != "" && EsBlanco(s[0]) {
      TrimBlank(s[1..]);
      assert forall i :: 1 <= i < |s| ==> s[i] == s[1..][i - 1];
    } else if s != "" && EsBlanco(s[|s| - 1]) {
      TrimBlank(s[..|s| - 1]);
    }
  }

  /** What trim leaves: the text without blanks in front and behind, and it ends in none. */
  lemma {:induction false} TrimSplits(s: string) returns (front: string, back: string)
    ensures s == front + Trim(s) + back && EnBlanco(front) && EnBlanco(back)
    ensures Trim(s) != "" ==> !EsBlanco(Trim(s)[0]) && !EsBlanco(Trim(s)[|Trim(s)| - 1])
    decreases |s|
  {
    hide EsBlanco;
    front, back := "", "";
    if s != "" && EsBlanco(s[0]) {
      front, back := TrimSplits(s[1..]);
      assert s == [s[0]] + (front + Trim(s) + back) == ([s[0]] + front) + Trim(s) + back;
      front := [s[0]] + front;
    } else if s != "" && EsBlanco(s[|s| - 1]) {
      front, back := TrimSplits(s[..|s| - 1]);
      assert s == (front + Trim(s) + back) + [s[|s| - 1]] == front + Trim(s) + (back + [s[|s| - 1]]);
      back := back + [s[|s| - 1]];
    }
  }

  lemma {:induction false} TrimFront(front: string, s: string)
    requires EnBlanco(front)
    ensures Trim(front + s) == Trim(s)
  {
    hide EsBlanco;
    if front == "" {
      assert front + s == s;
    } else {
      assert (front + s)[1..] == front[1..] + s && (front + s)[0] == front[0];
      TrimFront(front[1..], s);
    }
  }

  lemma {:induction false} TrimBack(s: string, back: string)
    requires EnBlanco(back) && (s == "" || !EsBlanco(s[0]))
    ensures Trim(s + back) == Trim(s)
  {
    hide EsBlanco;
    if back == "" {
      assert s + back == s;
    } else if s == "" {
      assert s + back == back;
      TrimBlank(back);
    } else {
      var n := |back| - 1;
      assert (s + back)[..|s + back| - 1] == s + back[..n] && (s + back)[|s + back| - 1] == back[n];
      assert (s + back)[0] == s[0];
      TrimBack(s, back[..n]);
    }
  }

  /** Blanks around a text make no difference. */
  lemma TrimAround(front: string, s: string, back: string)
    requires EnBlanco(front) && EnBlanco(back)
    ensures Trim(front + s + back) == Trim(s)
  {
    hide EsBlanco, Trim;
    assert front + s + back == front + (s + back);
    TrimFront(front, s + back);
    TrimWithBack(s, back);
  }

  lemma {:induction false} TrimWithBack(s: string, back: string)
    requires EnBlanco(back)
    ensures Trim(s + back) == Trim(s)
  {
    hide EsBlanco;
    if s != "" && EsBlanco(s[0]) {
      assert (s + back)[1..] == s[1..] + back && (s + back)[0] == s[0];
      TrimWithBack(s[1..], back);
    } else {
      TrimBack(s, back);
    }
  }

  lemma MayusculaSame(c: char, d: char)
    ensures Mayuscula(c) == Mayuscula(d) <==> SameLetter(c, d)
  {}

  /** Two codes are the same exactly when they agree up to case between their blanks. */
  lemma NormalSameExactlyWhen(s: string, t: string)
    ensures Normal(s) == Normal(t) <==> SameText(Trim(s), Trim(t))
  {
    hide Trim, Mayuscula, SameLetter;
    var u, v := Trim(s), Trim(t);
    assert |Mayusculas(u)| == |u| && |Mayusculas(v)| == |v|;
    if Mayusculas(u) == Mayusculas(v) {
      forall i | 0 <= i < |u|
        ensures SameLetter(u[i], v[i])
      {
        assert Mayusculas(u)[i] == Mayusculas(v)[i];
        MayusculaSame(u[i], v[i]);
      }
    }
    if SameText(u, v) {
      forall i | 0 <= i < |u|
        ensures Mayuscula(u[i]) == Mayuscula(v[i])
      {
        MayusculaSame(u[i], v[i]);
      }
    }
  }

  lemma {:induction false} SameTextTrim(s: string, t: string)
    requires SameText(s, t)
    ensures SameText(Trim(s), Trim(t))
    decreases |s|
  {
    if s != "" {
      SameBlank(s[0], t[0]);
      SameBlank(s[|s| - 1], t[|t| - 1]);
      hide EsBlanco, SameLetter;
      if EsBlanco(s[0]) {
        SameTextTrim(s[1..], t[1..]);
      } else if EsBlanco(s[|s| - 1]) {
        SameTextTrim(s[..|s| - 1], t[..|t| - 1]);
      }
    }
  }

  lemma SameBlank(c: char, d: char)
    requires SameLetter(c, d)
    ensures EsBlanco(c) <==> EsBlanco(d)
  {}

  /** The case of the typed code and the blanks around it make no difference to the percentage. */
  lemma {:induction false} CouponIgnoresCaseAndBlanks(
    promos: seq<Promo>, codigo: string, otro: string, front: string, back: string)
    requires EnBlanco(front) && EnBlanco(back) && SameText(codigo, otro)
    ensures DescuentoDeCupon(promos, front + otro + back) == DescuentoDeCupon(promos, codigo)
  {
    if promos != [] {
      CouponIgnoresCaseAndBlanks(promos[1..], codigo, otro, front, back);
      hide EsBlanco, Trim, SameText;
      TrimAround(front, otro, back);
      SameTextTrim(codigo, otro);
      NormalSameExactlyWhen(codigo, front + otro + back);
    }
  }

  /** A promotion is valid for a code exactly when it is not switched off and the texts between the blanks agree up to
      case. */
  lemma ValeExactlyWhen(p: Promo, codigo: string)
    ensures Vale(p, codigo) <==> p.activo != Some(false) && SameText(Trim(p.codigo), Trim(codigo))
  {
    NormalSameExactlyWhen(p.codigo, codigo);
  }

  /** The percentage that validarCupon sets: of the first active promotion with the code, or 0. */
  function DescuentoDeCupon(promos: seq<Promo>, codigo: string): int {
    if promos == [] then 0
    else if Vale(promos[0], codigo) then promos[0].descuentoPorcentaje
    else DescuentoDeCupon(promos[1..], codigo)
  }

  /** The first match decides, later promotions under the same code do not count, and no match gives no discount. */
  lemma {:induction false} PrimerCuponDecide(promos: seq<Promo>, codigo: string, i: nat)
    requires i <= |promos| && (forall j :: 0 <= j < i ==> !Vale(promos[j], codigo))
    requires i < |promos| ==> Vale(promos[i], codigo)
    ensures DescuentoDeCupon(promos, codigo) == if i == |promos| then 0 else promos[i].descuentoPorcentaje
  {
    hide Vale;
    if promos != [] && i > 0 {
      forall j | 0 <= j < i - 1
        ensures !Vale(promos[1..][j], codigo)
      {
        assert promos[1..][j] == promos[j + 1];
      }
      PrimerCuponDecide(promos[1..], codigo, i - 1);
    }
  }

  ghost predicate PromosEnRango(promos: seq<Promo>) {
    forall p :: p in promos ==> 0 <= p.descuentoPorcentaje <= 100
  }

  lemma {:induction false} CuponEnRango(promos: seq<Promo>, codigo: string)
    requires PromosEnRango(promos)
    ensures 0 <= DescuentoDeCupon(promos, codigo) <= 100
  {
    if promos != [] {
      CuponEnRango(promos[1..], codigo);
    }
  }
}
