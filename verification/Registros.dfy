/** Records of the simulated database (frontend/src/data/dbSimulada.js) and the list operations on one collection. */
module Registros {
  import opened Basics

  datatype Coleccion = Servicios | Barberos | Sucursales | Promociones | Citas | Clientes | Inventario | Empleados

  /** Field names; the ones the model reads have constructors of their own. */
  datatype Campo =
    | CodigoReserva | BarberoId | ClienteId | Fecha | Hora | Costo | DescuentoAplicado | TotalFinal | Estado
    | Otro(nombre: string)

  datatype Valor = Num(n: int) | Texto(s: string) | Booleano(b: bool) | Nulo

  type Campos = map<Campo, Valor>

  datatype Registro = Registro(id: int, campos: Campos)

  /** An object passed in by a caller: it may bring an id of its own, which the store ignores. */
  datatype Entrada = Entrada(id: Option<int>, campos: Campos)

  type Base = map<Coleccion, seq<Registro>>

  // ---------- one collection ----------

  /** `reduce` over the ids, starting at 0. */
  function MaxId(s: seq<Registro>): int {
    if s == [] then 0
    else
      var m := MaxId(s[..|s| - 1]);
      var id := s[|s| - 1].id;
      if id > m then id else m
  }

  function Creado(s: seq<Registro>, item: Entrada): Registro {
    Registro(MaxId(s) + 1, item.campos)
  }

  /** `findIndex` by id; -1 when there is none. */
  function Indice(s: seq<Registro>, id: int): (i: int)
    ensures -1 <= i < |s|
    ensures i >= 0 ==> s[i].id == id
    ensures i == -1 ==> forall j :: 0 <= j < |s| ==> s[j].id != id
  {
    if s == [] then -1
    else if s[0].id == id then 0
    else
      var i := Indice(s[1..], id);
      assert forall j :: 1 <= j < |s| ==> s[j] == s[1..][j - 1];
      if i == -1 then -1 else i + 1
  }

  /** Spread of the old record and the changes, keeping the old id. */
  function Cambiado(r: Registro, cambios: Entrada): Registro {
    Registro(r.id, r.campos + cambios.campos)
  }

  function Actualizada(s: seq<Registro>, id: int, cambios: Entrada): (r: seq<Registro>)
    ensures |r| == |s|
  {
    var i := Indice(s, id);
    if i == -1 then s else s[i := Cambiado(s[i], cambios)]
  }

  function SinId(s: seq<Registro>, id: int): seq<Registro> {
    if s == [] then []
    else
      var n := |s| - 1;
      if s[n].id == id then SinId(s[..n], id) else SinId(s[..n], id) + [s[n]]
  }

  function Ids(s: seq<Registro>): (r: seq<int>)
    ensures |r| == |s| && forall i :: 0 <= i < |s| ==> r[i] == s[i].id
  {
    seq(|s|, i requires 0 <= i < |s| => s[i].id)
  }

  // ---------- valid collections ----------

  /** Ids are positive and occur once. */
  ghost predicate Valida(s: seq<Registro>) {
    && (forall i :: 0 <= i < |s| ==> s[i].id > 0)
    && (forall i, j :: 0 <= i < j < |s| ==> s[i].id != s[j].id)
  }

  lemma {:induction false} MaxIdBounds(s: seq<Registro>)
    ensures MaxId(s) >= 0
    ensures forall i :: 0 <= i < |s| ==> s[i].id <= MaxId(s)
    ensures MaxId(s) == 0 || exists i :: 0 <= i < |s| && s[i].id == MaxId(s)
  {
    if s != [] {
      var n := |s| - 1;
      MaxIdBounds(s[..n]);
      if s[n].id <= MaxId(s[..n]) && MaxId(s) != 0 {
        var i :| 0 <= i < n && s[..n][i].id == MaxId(s[..n]);
        assert s[i].id == MaxId(s);
      }
    }
  }

  lemma {:induction false} SinIdNone(s: seq<Registro>, id: int)
    requires forall i :: 0 <= i < |s| ==> s[i].id != id
    ensures SinId(s, id) == s
  {
    if s != [] {
      SinIdNone(s[..|s| - 1], id);
    }
  }

  lemma {:induction false} SinIdAppend(s: seq<Registro>, t: seq<Registro>, id: int)
    ensures SinId(s + t, id) == SinId(s, id) + SinId(t, id)
  {
    if t == [] {
      assert s + t == s;
    } else {
      var n := |t| - 1;
      assert (s + t)[..|s + t| - 1] == s + t[..n];
      SinIdAppend(s, t[..n], id);
    }
  }

  lemma SinIdAround(before: seq<Registro>, row: Registro, after: seq<Registro>)
    requires forall i :: 0 <= i < |before| ==> before[i].id != row.id
    requires forall i :: 0 <= i < |after| ==> after[i].id != row.id
    ensures SinId(before + ([row] + after), row.id) == before + after
  {
    SinIdAppend(before, [row] + after, row.id);
    SinIdAppend([row], after, row.id);
    SinIdNone(before, row.id);
    SinIdNone(after, row.id);
    assert [row][..0] == [] && SinId([row], row.id) == [];
    assert [] + after == after;
  }

  /** Deleting takes out exactly the row of the id and keeps the order of the others. */
  lemma SinIdRemovesOneRow(s: seq<Registro>, id: int)
    requires Valida(s)
    ensures Indice(s, id) == -1 ==> SinId(s, id) == s
    ensures Indice(s, id) != -1 ==> SinId(s, id) == s[..Indice(s, id)] + s[Indice(s, id) + 1..]
  {
    hide SinId;
    var i := Indice(s, id);
    if i == -1 {
      SinIdNone(s, id);
    } else {
      assert s == s[..i] + ([s[i]] + s[i + 1..]);
      SinIdAround(s[..i], s[i], s[i + 1..]);
    }
  }

  lemma CrearKeepsValid(s: seq<Registro>, item: Entrada)
    requires Valida(s)
    ensures Valida(s + [Creado(s, item)])
  {
    MaxIdBounds(s);
  }

  lemma ActualizarKeepsIds(s: seq<Registro>, id: int, cambios: Entrada)
    ensures Ids(Actualizada(s, id, cambios)) == Ids(s)
    ensures Valida(s) ==> Valida(Actualizada(s, id, cambios))
  {}

  lemma EliminarKeepsValid(s: seq<Registro>, id: int)
    requires Valida(s)
    ensures Valida(SinId(s, id))
  {
    SinIdRemovesOneRow(s, id);
  }

  // ---------- the map a collection stands for ----------

  /** The finite map from id to fields. */
  function Mapa(s: seq<Registro>): map<int, Campos> {
    if s == [] then map[] else Mapa(s[..|s| - 1])[s[|s| - 1].id := s[|s| - 1].campos]
  }

  /** The map agrees with the rows, in both directions. */
  ghost predicate RowsAre(s: seq<Registro>, m: map<int, Campos>) {
    && (forall i :: 0 <= i < |s| ==> s[i].id in m && m[s[i].id] == s[i].campos)
    && (forall k :: k in m ==> exists i :: 0 <= i < |s| && s[i].id == k)
  }

  lemma RowsSnoc(s: seq<Registro>, r: Registro, m: map<int, Campos>)
    requires RowsAre(s, m) && forall i :: 0 <= i < |s| ==> s[i].id != r.id
    ensures RowsAre(s + [r], m[r.id := r.campos])
  {
    var t := s + [r];
    assert t[|s|] == r;
    forall k | k in m
      ensures exists i :: 0 <= i < |t| && t[i].id == k
    {
      var i :| 0 <= i < |s| && s[i].id == k;
      assert t[i].id == k;
    }
  }

  lemma {:induction false} MapaRows(s: seq<Registro>)
    requires Valida(s)
    ensures RowsAre(s, Mapa(s))
  {
    if s != [] {
      var n := |s| - 1;
      assert s == s[..n] + [s[n]];
      MapaRows(s[..n]);
      assert forall i :: 0 <= i < n ==> s[..n][i].id != s[n].id;
      hide RowsAre, Valida;
      RowsSnoc(s[..n], s[n], Mapa(s[..n]));
    }
  }

  lemma RowsDetermineMap(s: seq<Registro>, m: map<int, Campos>)
    requires Valida(s) && RowsAre(s, m)
    ensures Mapa(s) == m
  {
    hide Valida, Mapa;
    MapaRows(s);
    var w := Mapa(s);
    forall k | k in m
      ensures k in w && w[k] == m[k]
    {
      var i :| 0 <= i < |s| && s[i].id == k;
    }
    forall k | k in w
      ensures k in m
    {
      var i :| 0 <= i < |s| && s[i].id == k;
    }
  }

  lemma IndiceInMap(s: seq<Registro>, id: int)
    requires Valida(s)
    ensures Indice(s, id) != -1 <==> id in Mapa(s)
    ensures Indice(s, id) != -1 ==> Mapa(s)[id] == s[Indice(s, id)].campos
  {
    hide Valida, Mapa;
    MapaRows(s);
    if id in Mapa(s) {
      var i :| 0 <= i < |s| && s[i].id == id;
    }
  }

  /** `k` is the id after every id of the map: one more than the greatest, or 1. */
  ghost predicate EsSiguienteId(m: map<int, Campos>, k: int) {
    (forall j :: j in m ==> j < k) && (k == 1 || k - 1 in m)
  }

  lemma SiguienteIdUnique(m: map<int, Campos>, k: int, l: int)
    requires EsSiguienteId(m, k) && EsSiguienteId(m, l) && forall j :: j in m ==> j > 0
    ensures k == l
  {}

  lemma CrearRefines(s: seq<Registro>, item: Entrada)
    requires Valida(s)
    ensures EsSiguienteId(Mapa(s), Creado(s, item).id)
    ensures Mapa(s + [Creado(s, item)]) == Mapa(s)[Creado(s, item).id := item.campos]
  {
    MaxIdBounds(s);
    MapaRows(s);
    assert (s + [Creado(s, item)])[..|s + [Creado(s, item)]| - 1] == s;
    var k := MaxId(s);
    if k != 0 {
      var i :| 0 <= i < |s| && s[i].id == k;
      assert k in Mapa(s);
    }
  }

  lemma RowsChanged(s: seq<Registro>, i: nat, campos: Campos, m: map<int, Campos>)
    requires Valida(s) && i < |s| && RowsAre(s, m)
    ensures RowsAre(s[i := Registro(s[i].id, campos)], m[s[i].id := campos])
  {
    var t, n := s[i := Registro(s[i].id, campos)], m[s[i].id := campos];
    forall k | k in n
      ensures exists j :: 0 <= j < |t| && t[j].id == k
    {
      var j :| 0 <= j < |s| && s[j].id == k;
      assert t[j].id == k;
    }
  }

  lemma ActualizarRefines(s: seq<Registro>, id: int, cambios: Entrada)
    requires Valida(s)
    ensures Indice(s, id) != -1 <==> id in Mapa(s)
    ensures Mapa(Actualizada(s, id, cambios))
            == if id in Mapa(s) then Mapa(s)[id := Mapa(s)[id] + cambios.campos] else Mapa(s)
  {
    hide Mapa, RowsAre, Valida;
    IndiceInMap(s, id);
    MapaRows(s);
    ActualizarKeepsIds(s, id, cambios);
    var i := Indice(s, id);
    if i != -1 {
      var campos := s[i].campos + cambios.campos;
      RowsChanged(s, i, campos, Mapa(s));
      RowsDetermineMap(Actualizada(s, id, cambios), Mapa(s)[id := campos]);
    }
  }

  /** A row at another position than `i` is still there, and it has another id. */
  lemma OtherRow(s: seq<Registro>, i: nat, j: nat)
    requires Valida(s) && i < |s| && j < |s| && i != j
    ensures var t, k := s[..i] + s[i + 1..], if j < i then j else j - 1;
            k < |t| && t[k] == s[j]
    ensures s[j].id != s[i].id
  {}

  lemma RowsWithout(s: seq<Registro>, i: nat, m: map<int, Campos>)
    requires Valida(s) && i < |s| && RowsAre(s, m)
    ensures RowsAre(s[..i] + s[i + 1..], m - {s[i].id})
  {
    hide Valida;
    var t := s[..i] + s[i + 1..];
    forall k | k in m - {s[i].id}
      ensures exists j :: 0 <= j < |t| && t[j].id == k
    {
      var j :| 0 <= j < |s| && s[j].id == k;
      OtherRow(s, i, j);
    }
    forall j | 0 <= j < |t|
      ensures t[j].id in m - {s[i].id} && (m - {s[i].id})[t[j].id] == t[j].campos
    {
      OtherRow(s, i, if j < i then j else j + 1);
    }
  }

  lemma EliminarRefines(s: seq<Registro>, id: int)
    requires Valida(s)
    ensures Mapa(SinId(s, id)) == Mapa(s) - {id}
    ensures |SinId(s, id)| < |s| <==> id in Mapa(s)
  {
    hide Mapa, SinId, RowsAre, Valida;
    SinIdRemovesOneRow(s, id);
    EliminarKeepsValid(s, id);
    IndiceInMap(s, id);
    MapaRows(s);
    var i := Indice(s, id);
    if i != -1 {
      RowsWithout(s, i, Mapa(s));
      RowsDetermineMap(SinId(s, id), Mapa(s) - {id});
    } else {
      assert Mapa(s) - {id} == Mapa(s);
    }
  }

  lemma MaxIdInMap(s: seq<Registro>, id: int)
    requires Valida(s) && id in Mapa(s)
    ensures MaxId(s) in Mapa(s) && forall k :: k in Mapa(s) ==> 0 < k <= MaxId(s)
  {
    hide Mapa, MaxId;
    MaxIdBounds(s);
    MapaRows(s);
    var j :| 0 <= j < |s| && s[j].id == id;
    var i :| 0 <= i < |s| && s[i].id == MaxId(s);
  }

  /** Ids are not unique over time: the id of a deleted row is given out again by the next creation if and only if it
      was the greatest one and the one below it is still there (or it was 1). */
  lemma DeletedIdReusedExactlyWhen(s: seq<Registro>, id: int, item: Entrada)
    requires Valida(s) && id in Mapa(s)
    ensures Creado(SinId(s, id), item).id == id <==> id == MaxId(s) && (id == 1 || id - 1 in Mapa(s))
  {
    var t := SinId(s, id);
    EliminarKeepsValid(s, id);
    hide Mapa, SinId, Creado, MaxId, Valida;
    EliminarRefines(s, id);
    CrearRefines(t, item);
    MaxIdInMap(s, id);
    if id == MaxId(s) && (id == 1 || id - 1 in Mapa(s)) {
      SiguienteIdUnique(Mapa(t), Creado(t, item).id, id);
    }
    if id != MaxId(s) {
      assert MaxId(s) in Mapa(t);
    }
  }
}
