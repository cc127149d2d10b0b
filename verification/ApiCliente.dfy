/** The layer of frontend/src/services/api.js: every mutation first calls the backend and then, whatever came back,
    the local store. */
module ApiCliente {
  import opened Basics
  import opened Registros
  import opened DbSimulada

  /** The fate of one fetch: a success status whose body parses or not, an error status, or a thrown error
      (unreachable, or aborted by the timeout). */
  datatype Red = Ok(cuerpo: Option<Entrada>) | EstadoError | Lanza

  datatype Llamada =
    | CrearRemoto(col: Coleccion, item: Entrada)
    | ActualizarRemoto(col: Coleccion, id: int, cambios: Entrada)
    | EliminarRemoto(col: Coleccion, id: int)
    | Agendar(datos: Campos, codigo: string)
    | CambiarEstado(id: int, estado: string)

  /** The record that agendar books: the caller's fields with a reservation code, confirmed. */
  function CitaCompleta(datos: Campos, codigo: string): Campos {
    datos[CodigoReserva := Texto(codigo)][Estado := Texto("CONFIRMADA")]
  }

  function ConEstado(estado: string): Entrada {
    Entrada(None, map[Estado := Texto(estado)])
  }

  /** The body of a successful answer, or else what the caller sent. */
  function CuerpoO(red: Red, enviado: Entrada): Entrada {
    if red.Ok? && red.cuerpo.Some? then red.cuerpo.value else enviado
  }

  /** The single store operation that a call performs under a network outcome. */
  function OpLocal(llamada: Llamada, red: Red): Op {
    match llamada
    case CrearRemoto(col, item) => Crear(col, CuerpoO(red, item))
    case ActualizarRemoto(col, id, cambios) => Actualizar(col, id, CuerpoO(red, cambios))
    case EliminarRemoto(col, id) => Eliminar(col, id)
    case Agendar(datos, codigo) =>
      Crear(Citas, Entrada(CuerpoO(red, Entrada(None, map[])).id, CitaCompleta(datos, codigo)))
    case CambiarEstado(id, estado) => Actualizar(Citas, id, ConEstado(estado))
  }

  // ---------- the client ----------

  class Api {
    const db: DbSimulada
    var backendDisponible: bool

    constructor (db: DbSimulada)
      ensures this.db == db && !backendDisponible
    {
      this.db := db;
      backendDisponible := false;
    }

    method VerificarEstadoBackend(red: Red) returns (disponible: bool)
      modifies this
      ensures disponible == backendDisponible == red.Ok?
    {
      backendDisponible := red.Ok?;
      disponible := backendDisponible;
    }

    /** ServiciosAPI.listar. `lista` is the parsed body when there is one. An error status leaves the flag alone. */
    method ListarServicios(red: Red, lista: seq<Registro>, e: Entorno) returns (servicios: seq<Registro>)
      modifies this, db
      ensures backendDisponible == match red
                                   case Ok(c) => c.Some?
                                   case EstadoError => old(backendDisponible)
                                   case Lanza => false
      ensures if red.Ok? && red.cuerpo.Some? && lista != []
              then servicios == lista && db.blob == old(db.blob)
              else servicios == Lista(Cargada(db.inicial, old(db.blob), e.lectura), Servicios) &&
                   db.blob == Sembrado(db.inicial, old(db.blob), e)
    {
      match red {
        case Ok(cuerpo) =>
          backendDisponible := true;
          if cuerpo.Some? {
            if lista != [] {
              return lista;
            }
          } else {
            backendDisponible := false;
          }
        case EstadoError =>
        case Lanza => backendDisponible := false;
      }
      servicios := db.ObtenerTodos(Servicios, e);
    }

    method CrearEn(col: Coleccion, item: Entrada, red: Red, e: Entorno) returns (guardado: Entrada)
      modifies db
      ensures db.blob == Siguiente(db.inicial, old(db.blob), OpLocal(CrearRemoto(col, item), red), e)
      ensures guardado.campos == CuerpoO(red, item).campos
    {
      if red.Ok? && red.cuerpo.Some? {
        guardado := red.cuerpo.value;
        var _ := db.Crear(col, guardado, e);
        return;
      }
      var local := db.Crear(col, item, e);
      guardado := Entrada(Some(local.id), local.campos);
    }

    method ActualizarEn(col: Coleccion, id: int, cambios: Entrada, red: Red, e: Entorno)
      modifies db
      ensures db.blob == Siguiente(db.inicial, old(db.blob), OpLocal(ActualizarRemoto(col, id, cambios), red), e)
    {
      if red.Ok? && red.cuerpo.Some? {
        var _ := db.Actualizar(col, id, red.cuerpo.value, e);
        return;
      }
      var _ := db.Actualizar(col, id, cambios, e);
    }

    /** A success status answers true even when the local store had no such row. */
    method EliminarDe(col: Coleccion, id: int, red: Red, e: Entorno) returns (eliminado: bool)
      requires BaseValida(db.inicial) && BlobValido(db.blob)
      modifies db
      ensures db.blob == Siguiente(db.inicial, old(db.blob), OpLocal(EliminarRemoto(col, id), red), e)
      ensures eliminado <==> red.Ok? || id in MapasDe(Cargada(db.inicial, old(db.blob), e.lectura))(col)
    {
      if red.Ok? {
        var _ := db.Eliminar(col, id, e);
        return true;
      }
      eliminado := db.Eliminar(col, id, e);
    }

    /** The answer is the local record, whichever branch was taken. */
    method AgendarCita(datos: Campos, codigo: string, red: Red, e: Entorno) returns (creada: Registro)
      modifies db
      ensures db.blob == Siguiente(db.inicial, old(db.blob), OpLocal(Agendar(datos, codigo), red), e)
      ensures var antes := Lista(Cargada(db.inicial, old(db.blob), e.lectura), Citas);
              creada == Registro(MaxId(antes) + 1, CitaCompleta(datos, codigo)) &&
              (forall c :: c in antes ==> c.id < creada.id) &&
              (e.escritura ==> db.blob.Some? && Lista(db.blob.value, Citas) == antes + [creada])
      ensures Estado in creada.campos && creada.campos[Estado] == Texto("CONFIRMADA")
      ensures CodigoReserva in creada.campos && creada.campos[CodigoReserva] == Texto(codigo)
      ensures forall campo :: campo != Estado && campo != CodigoReserva ==>
                (campo in creada.campos <==> campo in datos) &&
                (campo in datos ==> creada.campos[campo] == datos[campo])
    {
      var datosCompletos := CitaCompleta(datos, codigo);
      if red.Ok? && red.cuerpo.Some? {
        creada := db.Crear(Citas, Entrada(red.cuerpo.value.id, datosCompletos), e);
        return;
      }
      creada := db.Crear(Citas, Entrada(None, datosCompletos), e);
    }

    method CambiarEstadoDe(id: int, nuevoEstado: string, red: Red, e: Entorno) returns (ok: bool)
      modifies db
      ensures ok
      ensures db.blob == Siguiente(db.inicial, old(db.blob), OpLocal(CambiarEstado(id, nuevoEstado), red), e)
      ensures var antes := Lista(Cargada(db.inicial, old(db.blob), e.lectura), Citas);
              var i := Indice(antes, id);
              e.escritura && i != -1 ==>
                db.blob.Some? &&
                var ahora := Lista(db.blob.value, Citas);
                |ahora| == |antes| && (forall j :: 0 <= j < |ahora| && j != i ==> ahora[j] == antes[j]) &&
                ahora[i].id == id && ahora[i].campos == antes[i].campos[Estado := Texto(nuevoEstado)]
    {
      if red.Ok? {
        var _ := db.Actualizar(Citas, id, ConEstado(nuevoEstado), e);
        return true;
      }
      var _ := db.Actualizar(Citas, id, ConEstado(nuevoEstado), e);
      ok := true;
    }
  }

  // ---------- runs under two different networks ----------

  /** An order: a call through the API, or a direct use of the store (deleting a barber, restoring the data). */
  datatype Orden = Remota(llamada: Llamada, e: Entorno) | Directa(op: Op, e: Entorno)

  /** The generic create and update endpoints are never used for appointments. */
  predicate OrdenValida(o: Orden) {
    match o
    case Remota(CrearRemoto(col, _), _) => col != Citas
    case Remota(ActualizarRemoto(col, _, _), _) => col != Citas
    case _ => true
  }

  /** Left out are exactly creations and updates of appointments through the generic endpoints. */
  lemma OrdenValidaExactlyWhen(o: Orden)
    ensures !OrdenValida(o) <==>
            o.Remota? && ((o.llamada.CrearRemoto? || o.llamada.ActualizarRemoto?) && o.llamada.col == Citas)
  {}

  function PasoDe(o: Orden, red: Red): Paso {
    match o
    case Remota(llamada, e) => Paso(OpLocal(llamada, red), e)
    case Directa(op, e) => Paso(op, e)
  }

  function PasosDe(ordenes: seq<Orden>, redes: seq<Red>): (pasos: seq<Paso>)
    requires |redes| == |ordenes|
    ensures |pasos| == |ordenes| && forall i :: 0 <= i < |pasos| ==> pasos[i] == PasoDe(ordenes[i], redes[i])
  {
    seq(|ordenes|, i requires 0 <= i < |ordenes| => PasoDe(ordenes[i], redes[i]))
  }

  /** The same appointments, and in every collection the same ids in the same order. */
  ghost predicate Acuerdan(a: Base, b: Base) {
    && a.Keys == b.Keys
    && Lista(a, Citas) == Lista(b, Citas)
    && forall col :: Ids(Lista(a, col)) == Ids(Lista(b, col))
  }

  ghost predicate BlobsAcuerdan(a: Option<Base>, b: Option<Base>) {
    (a.None? <==> b.None?) && (a.Some? ==> Acuerdan(a.value, b.value))
  }

  /** Two operations that differ at most in the fields they bring to a collection other than the appointments. */
  predicate Parecidas(p: Op, q: Op) {
    match (p, q)
    case (Crear(c, x), Crear(d, y)) => c == d && (c == Citas ==> x.campos == y.campos)
    case (Actualizar(c, i, x), Actualizar(d, j, y)) => c == d && i == j && (c == Citas ==> x.campos == y.campos)
    case _ => p == q
  }

  lemma NetworkOnlyChangesContents(o: Orden, r1: Red, r2: Red)
    requires OrdenValida(o)
    ensures PasoDe(o, r1).e == PasoDe(o, r2).e && Parecidas(PasoDe(o, r1).op, PasoDe(o, r2).op)
  {}

  lemma {:induction false} SameIdsSameMax(s: seq<Registro>, t: seq<Registro>)
    requires Ids(s) == Ids(t)
    ensures MaxId(s) == MaxId(t)
  {
    assert |s| == |Ids(s)| == |t|;
    if s != [] {
      var n := |s| - 1;
      assert Ids(s[..n]) == Ids(s)[..n] == Ids(t)[..n] == Ids(t[..n]);
      assert s[n].id == Ids(s)[n] == t[n].id;
      SameIdsSameMax(s[..n], t[..n]);
    }
  }

  lemma {:induction false} SameIdsSameIndex(s: seq<Registro>, t: seq<Registro>, id: int)
    requires Ids(s) == Ids(t)
    ensures Indice(s, id) == Indice(t, id)
  {
    assert |s| == |Ids(s)| == |t|;
    if s != [] {
      assert Ids(s[1..]) == Ids(s)[1..] == Ids(t)[1..] == Ids(t[1..]);
      assert s[0].id == Ids(s)[0] == t[0].id;
      SameIdsSameIndex(s[1..], t[1..], id);
    }
  }

  lemma {:induction false} SameIdsSameRest(s: seq<Registro>, t: seq<Registro>, id: int)
    requires Ids(s) == Ids(t)
    ensures Ids(SinId(s, id)) == Ids(SinId(t, id))
  {
    assert |s| == |Ids(s)| == |t|;
    if s != [] {
      var n := |s| - 1;
      assert Ids(s[..n]) == Ids(s)[..n] == Ids(t)[..n] == Ids(t[..n]);
      assert s[n].id == Ids(s)[n] == t[n].id;
      SameIdsSameRest(s[..n], t[..n], id);
      assert forall u: seq<Registro> :: Ids(u + [s[n]]) == Ids(u) + [s[n].id];
      assert forall u: seq<Registro> :: Ids(u + [t[n]]) == Ids(u) + [t[n].id];
    }
  }

  lemma IdsOfCreated(s: seq<Registro>, t: seq<Registro>, x: Entrada, y: Entrada)
    requires Ids(s) == Ids(t)
    ensures Ids(s + [Creado(s, x)]) == Ids(t + [Creado(t, y)])
  {
    SameIdsSameMax(s, t);
    assert Ids(s + [Creado(s, x)]) == Ids(s) + [MaxId(s) + 1];
    assert Ids(t + [Creado(t, y)]) == Ids(t) + [MaxId(t) + 1];
  }

  /** How one operation changes the list it names. */
  function ListaTras(s: seq<Registro>, op: Op): seq<Registro>
    requires !op.Restablecer?
  {
    match op
    case Crear(_, item) => s + [Creado(s, item)]
    case Actualizar(_, id, cambios) => Actualizada(s, id, cambios)
    case Eliminar(_, id) => SinId(s, id)
  }

  lemma ListaTrasAgrees(s: seq<Registro>, t: seq<Registro>, p: Op, q: Op)
    requires !p.Restablecer? && Parecidas(p, q) && Ids(s) == Ids(t)
    ensures !q.Restablecer? && Ids(ListaTras(s, p)) == Ids(ListaTras(t, q))
    ensures s == t && p.col == Citas ==> ListaTras(s, p) == ListaTras(t, q)
  {
    hide Ids, SinId, MaxId;
    match p
    case Crear(c, x) => IdsOfCreated(s, t, x, q.item);
    case Actualizar(c, id, x) =>
      ActualizarKeepsIds(s, id, x);
      ActualizarKeepsIds(t, id, q.cambios);
    case Eliminar(c, id) => SameIdsSameRest(s, t, id);
  }

  lemma EscribeAgrees(a: Base, b: Base, p: Op, q: Op)
    requires Acuerdan(a, b) && Parecidas(p, q) && !p.Restablecer?
    ensures Escribe(a, p) == Escribe(b, q)
  {
    hide SinId;
    var s, t := Lista(a, p.col), Lista(b, q.col);
    assert |s| == |Ids(s)| == |t|;
    match p
    case Crear(_, _) =>
    case Actualizar(_, id, _) => SameIdsSameIndex(s, t, id);
    case Eliminar(_, id) =>
      SameIdsSameRest(s, t, id);
      assert |SinId(s, id)| == |Ids(SinId(s, id))| == |SinId(t, id)|;
  }

  lemma ListaDeAplicada(db: Base, op: Op, col: Coleccion)
    requires !op.Restablecer?
    ensures Lista(Aplicada(db, op), col) == if col == op.col then ListaTras(Lista(db, col), op) else Lista(db, col)
    ensures Aplicada(db, op).Keys == if op.Crear? then db.Keys + {op.col} else db.Keys
  {}

  lemma AplicadaAgrees(a: Base, b: Base, p: Op, q: Op)
    requires Acuerdan(a, b) && Parecidas(p, q) && !p.Restablecer?
    ensures Acuerdan(Aplicada(a, p), Aplicada(b, q))
  {
    hide Aplicada, ListaTras, Ids, Lista;
    forall col
      ensures Ids(Lista(Aplicada(a, p), col)) == Ids(Lista(Aplicada(b, q), col))
      ensures col == Citas ==> Lista(Aplicada(a, p), col) == Lista(Aplicada(b, q), col)
    {
      ListaDeAplicada(a, p, col);
      ListaDeAplicada(b, q, col);
      ListaTrasAgrees(Lista(a, p.col), Lista(b, p.col), p, q);
    }
    ListaDeAplicada(a, p, Citas);
    ListaDeAplicada(b, q, Citas);
  }

  lemma SiguienteAgrees(inicial: Base, a: Option<Base>, b: Option<Base>, p: Op, q: Op, e: Entorno)
    requires BlobsAcuerdan(a, b) && Parecidas(p, q)
    ensures BlobsAcuerdan(Siguiente(inicial, a, p, e), Siguiente(inicial, b, q, e))
  {
    hide Aplicada, Escribe, Ids, Lista, Parecidas;
    if !p.Restablecer? {
      assert !q.Restablecer? by { SameKind(p, q); }
      var x, y := Cargada(inicial, a, e.lectura), Cargada(inicial, b, e.lectura);
      EscribeAgrees(x, y, p, q);
      AplicadaAgrees(x, y, p, q);
    } else {
      SameKind(p, q);
    }
  }

  lemma SameKind(p: Op, q: Op)
    requires Parecidas(p, q)
    ensures p.Restablecer? <==> q.Restablecer?
  {}

  /** NETWORK INDEPENDENCE. Two runs of the same orders, under any two patterns of successes, error statuses and thrown
      errors and with any bodies, end with identical appointments and identical id lists in every collection. */
  lemma {:induction false} RunsAgree(inicial: Base, blob: Option<Base>, ordenes: seq<Orden>, r1: seq<Red>, r2: seq<Red>)
    requires |r1| == |ordenes| == |r2|
    requires forall i :: 0 <= i < |ordenes| ==> OrdenValida(ordenes[i])
    ensures BlobsAcuerdan(Corrida(inicial, blob, PasosDe(ordenes, r1)), Corrida(inicial, blob, PasosDe(ordenes, r2)))
    decreases |ordenes|
  {
    if ordenes != [] {
      var n := |ordenes| - 1;
      RunsAgree(inicial, blob, ordenes[..n], r1[..n], r2[..n]);
      assert PasosDe(ordenes, r1)[..n] == PasosDe(ordenes[..n], r1[..n]);
      assert PasosDe(ordenes, r2)[..n] == PasosDe(ordenes[..n], r2[..n]);
      hide BlobsAcuerdan, Siguiente, Parecidas, OrdenValida, PasoDe;
      NetworkOnlyChangesContents(ordenes[n], r1[n], r2[n]);
      SiguienteAgrees(inicial, Corrida(inicial, blob, PasosDe(ordenes[..n], r1[..n])),
                      Corrida(inicial, blob, PasosDe(ordenes[..n], r2[..n])),
                      PasoDe(ordenes[n], r1[n]).op, PasoDe(ordenes[n], r2[n]).op, PasoDe(ordenes[n], r1[n]).e);
    }
  }

  // ---------- what a success stores ----------

  /** What a success stores is the server's body: a creation stores the same database as an offline one if and only if
      the server echoes the fields that were sent (or the write is lost). */
  lemma ContentsAgreeExactlyWhenEchoed(
    inicial: Base, blob: Option<Base>, col: Coleccion, item: Entrada, cuerpo: Entrada, e: Entorno)
    ensures Siguiente(inicial, blob, OpLocal(CrearRemoto(col, item), Ok(Some(cuerpo))), e)
              == Siguiente(inicial, blob, OpLocal(CrearRemoto(col, item), Lanza), e)
            <==> cuerpo.campos == item.campos || !e.escritura
  {
    if e.escritura {
      var db := Cargada(inicial, blob, e.lectura);
      var s := Lista(db, col);
      var x, y := Aplicada(db, Crear(col, cuerpo)), Aplicada(db, Crear(col, item));
      assert x[col][|s|] == Creado(s, cuerpo) && y[col][|s|] == Creado(s, item);
    }
  }

  /** Spreading `x` or `y` over the fields `m` gives the same: they agree where both set a field, and what only one of
      them sets is there already. */
  ghost predicate MismoEfecto(m: Campos, x: Campos, y: Campos) {
    forall campo: Campo ::
      if campo in x && campo in y then x[campo] == y[campo]
      else if campo in x then Tenia(m, campo, x[campo])
      else campo in y ==> Tenia(m, campo, y[campo])
  }

  predicate Tenia(m: Campos, campo: Campo, v: Valor) { campo in m && m[campo] == v }

  lemma SpreadsAgree(m: Campos, x: Campos, y: Campos)
    ensures m + x == m + y <==> MismoEfecto(m, x, y)
  {
    if m + x == m + y {
      forall campo: Campo
        ensures if campo in x && campo in y then x[campo] == y[campo]
                else if campo in x then Tenia(m, campo, x[campo])
                else campo in y ==> Tenia(m, campo, y[campo])
      {
        assert (campo in m + x) == (campo in m + y);
        assert campo in m + x ==> (m + x)[campo] == (m + y)[campo];
      }
    }
    if MismoEfecto(m, x, y) {
      forall campo: Campo
        ensures campo in m + x <==> campo in m + y
        ensures campo in m + x && campo in m + y ==> (m + x)[campo] == (m + y)[campo]
      {}
    }
  }

  /** An update online stores the same database as an offline one if and only if there is no such row, the write is
      lost, or the server's body has the same effect on the row as the changes that were sent. */
  lemma UpdatesAgreeExactlyWhen(
    inicial: Base, blob: Option<Base>, col: Coleccion, id: int, cambios: Entrada, cuerpo: Entrada, e: Entorno)
    ensures var s := Lista(Cargada(inicial, blob, e.lectura), col);
            Siguiente(inicial, blob, OpLocal(ActualizarRemoto(col, id, cambios), Ok(Some(cuerpo))), e)
              == Siguiente(inicial, blob, OpLocal(ActualizarRemoto(col, id, cambios), Lanza), e)
            <==> !e.escritura || Indice(s, id) == -1 ||
                 MismoEfecto(s[Indice(s, id)].campos, cuerpo.campos, cambios.campos)
  {
    hide MismoEfecto;
    var db := Cargada(inicial, blob, e.lectura);
    var s := Lista(db, col);
    var i := Indice(s, id);
    if e.escritura && i != -1 {
      SpreadsAgree(s[i].campos, cuerpo.campos, cambios.campos);
      var x: seq<Registro>, y: seq<Registro> := Actualizada(s, id, cuerpo), Actualizada(s, id, cambios);
      assert x[i].campos == s[i].campos + cuerpo.campos && y[i].campos == s[i].campos + cambios.campos;
      assert db[col := x][col] == x && db[col := y][col] == y;
    }
  }
}
