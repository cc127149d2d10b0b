/** The persisted store of frontend/src/data/dbSimulada.js: every operation loads the whole database, changes one
    collection in memory and writes the whole database back. */
module DbSimulada {
  import opened Basics
  import opened Registros

  /** How localStorage behaves during one operation: reading, writing the initial data when nothing is stored yet,
      writing the result. */
  datatype Entorno = Entorno(lectura: bool, siembra: bool, escritura: bool)

  datatype Op =
    | Crear(col: Coleccion, item: Entrada)
    | Actualizar(col: Coleccion, id: int, cambios: Entrada)
    | Eliminar(col: Coleccion, id: int)
    | Restablecer

  // ---------- the stored blob as a value ----------

  /** What a load yields; the initial data when nothing is stored or the read fails. */
  function Cargada(inicial: Base, blob: Option<Base>, lectura: bool): Base {
    if lectura && blob.Some? then blob.value else inicial
  }

  function Lista(db: Base, col: Coleccion): seq<Registro> {
    if col in db then db[col] else []
  }

  /** The database in memory after the operation. */
  function Aplicada(db: Base, op: Op): Base {
    match op
    case Crear(col, item) => db[col := Lista(db, col) + [Creado(Lista(db, col), item)]]
    case Actualizar(col, id, cambios) => if col in db then db[col := Actualizada(db[col], id, cambios)] else db
    case Eliminar(col, id) => if col in db then db[col := SinId(db[col], id)] else db
    case Restablecer => db
  }

  /** Whether the operation reaches its write. */
  predicate Escribe(db: Base, op: Op) {
    match op
    case Crear(_, _) => true
    case Actualizar(col, id, _) => Indice(Lista(db, col), id) != -1
    case Eliminar(col, id) => |SinId(Lista(db, col), id)| < |Lista(db, col)|
    case Restablecer => true
  }

  /** The blob after loading: the first load stores the initial data. */
  function Sembrado(inicial: Base, blob: Option<Base>, e: Entorno): Option<Base> {
    if e.lectura && blob.None? && e.siembra then Some(inicial) else blob
  }

  /** The blob after one operation. Restoring writes without loading; when that write throws nothing changes. */
  function Siguiente(inicial: Base, blob: Option<Base>, op: Op, e: Entorno): Option<Base> {
    if op.Restablecer? then (if e.escritura then Some(inicial) else blob)
    else
      var db := Cargada(inicial, blob, e.lectura);
      if Escribe(db, op) && e.escritura then Some(Aplicada(db, op)) else Sembrado(inicial, blob, e)
  }

  /** Only a first load that can read and write stores the initial data. */
  lemma SeedsOnce(inicial: Base, blob: Option<Base>, e: Entorno)
    ensures Sembrado(inicial, blob, e) != blob ==> blob == None && Sembrado(inicial, blob, e) == Some(inicial)
    ensures blob == None ==> (Sembrado(inicial, blob, e) == Some(inicial) <==> e.lectura && e.siembra)
  {}

  /** An update or a deletion of a missing row writes nothing but what the load did. */
  lemma MissingRowWritesNothing(inicial: Base, blob: Option<Base>, op: Op, e: Entorno)
    requires op.Actualizar? || op.Eliminar?
    requires forall r :: r in Lista(Cargada(inicial, blob, e.lectura), op.col) ==> r.id != op.id
    ensures Siguiente(inicial, blob, op, e) == Sembrado(inicial, blob, e)
  {
    var l := Lista(Cargada(inicial, blob, e.lectura), op.col);
    if op.Eliminar? {
      SinIdNone(l, op.id);
    } else {
      var i := Indice(l, op.id);
      assert i != -1 ==> l[i] in l;
    }
  }

  datatype Paso = Paso(op: Op, e: Entorno)

  function Corrida(inicial: Base, blob: Option<Base>, pasos: seq<Paso>): Option<Base>
    decreases |pasos|
  {
    if pasos == [] then blob
    else
      var n := |pasos| - 1;
      Siguiente(inicial, Corrida(inicial, blob, pasos[..n]), pasos[n].op, pasos[n].e)
  }

  // ---------- every run keeps ids distinct and positive ----------

  ghost predicate BaseValida(db: Base) {
    forall col :: col in db ==> Valida(db[col])
  }

  ghost predicate BlobValido(blob: Option<Base>) {
    blob.Some? ==> BaseValida(blob.value)
  }

  lemma SiguienteValido(inicial: Base, blob: Option<Base>, op: Op, e: Entorno)
    requires BaseValida(inicial) && BlobValido(blob)
    ensures BlobValido(Siguiente(inicial, blob, op, e))
  {
    hide Valida;
    var db := Cargada(inicial, blob, e.lectura);
    match op
    case Crear(col, item) => CrearKeepsValid(Lista(db, col), item) by { EmptyValid(); }
    case Actualizar(col, id, cambios) => ActualizarKeepsIds(Lista(db, col), id, cambios);
    case Eliminar(col, id) => EliminarKeepsValid(Lista(db, col), id) by { EmptyValid(); }
    case Restablecer =>
  }

  lemma EmptyValid()
    ensures Valida([])
  {}

  /** INVARIANT. Whatever operations run and whichever reads and writes fail, the ids of every stored collection stay
      positive and distinct. */
  lemma {:induction false} CorridaValida(inicial: Base, blob: Option<Base>, pasos: seq<Paso>)
    requires BaseValida(inicial) && BlobValido(blob)
    ensures BlobValido(Corrida(inicial, blob, pasos))
    decreases |pasos|
  {
    if pasos != [] {
      var n := |pasos| - 1;
      CorridaValida(inicial, blob, pasos[..n]);
      SiguienteValido(inicial, Corrida(inicial, blob, pasos[..n]), pasos[n].op, pasos[n].e);
    }
  }

  // ---------- every run refines maps from id to record ----------

  /** One finite map per collection; a collection that does not exist yet is the empty map. */
  type Mapas = Coleccion -> map<int, Campos>

  function MapasDe(db: Base): Mapas {
    (col: Coleccion) => Mapa(Lista(db, col))
  }

  /** The specification of one operation on maps. `lost` tells that its write failed. */
  ghost predicate PasoDeMapas(m: Mapas, op: Op, lost: bool, inicial: Mapas, n: Mapas) {
    if lost then forall col :: n(col) == m(col)
    else match op
      case Crear(c, item) =>
        exists k :: EsSiguienteId(m(c), k) &&
                    forall col :: n(col) == if col == c then m(c)[k := item.campos] else m(col)
      case Actualizar(c, id, cambios) =>
        forall col :: n(col) == if col == c && id in m(c) then m(c)[id := m(c)[id] + cambios.campos] else m(col)
      case Eliminar(c, id) =>
        forall col :: n(col) == if col == c then m(c) - {id} else m(col)
      case Restablecer => forall col :: n(col) == inicial(col)
  }

  lemma CrearAplicada(inicial: Base, db: Base, c: Coleccion, item: Entrada)
    requires BaseValida(db)
    ensures PasoDeMapas(MapasDe(db), Crear(c, item), false, MapasDe(inicial), MapasDe(Aplicada(db, Crear(c, item))))
  {
    hide Valida, Mapa, EsSiguienteId;
    EmptyValid();
    CrearRefines(Lista(db, c), item);
    assert EsSiguienteId(MapasDe(db)(c), Creado(Lista(db, c), item).id);
  }

  lemma ActualizarAplicada(inicial: Base, db: Base, op: Op)
    requires BaseValida(db) && op.Actualizar?
    ensures PasoDeMapas(MapasDe(db), op, false, MapasDe(inicial), MapasDe(Aplicada(db, op)))
    ensures !Escribe(db, op) ==> MapasDe(Aplicada(db, op))(op.col) == MapasDe(db)(op.col)
  {
    hide Valida, Mapa;
    EmptyValid();
    ActualizarRefines(Lista(db, op.col), op.id, op.cambios);
  }

  lemma OtherLists(db: Base, op: Op, col: Coleccion)
    requires !op.Restablecer? && col != op.col
    ensures Lista(Aplicada(db, op), col) == Lista(db, col)
  {}

  lemma EliminarLista(db: Base, c: Coleccion, id: int)
    requires BaseValida(db)
    ensures Mapa(Lista(Aplicada(db, Eliminar(c, id)), c)) == Mapa(Lista(db, c)) - {id}
    ensures !Escribe(db, Eliminar(c, id)) ==> Mapa(Lista(db, c)) - {id} == Mapa(Lista(db, c))
  {
    hide Valida, Mapa, SinId, Indice;
    EmptyValid();
    EliminarRefines(Lista(db, c), id);
    if c !in db {
      assert SinId([], id) == [] by { SinIdNone([], id); }
    }
    if id !in Mapa(Lista(db, c)) {
      assert Mapa(Lista(db, c)) - {id} == Mapa(Lista(db, c));
    }
  }

  lemma EliminarAplicada(inicial: Base, db: Base, op: Op)
    requires BaseValida(db) && op.Eliminar?
    ensures PasoDeMapas(MapasDe(db), op, false, MapasDe(inicial), MapasDe(Aplicada(db, op)))
    ensures !Escribe(db, op) ==> MapasDe(Aplicada(db, op))(op.col) == MapasDe(db)(op.col)
  {
    hide Mapa, Lista, Aplicada, Escribe, BaseValida;
    EliminarLista(db, op.col, op.id);
    forall col
      ensures MapasDe(Aplicada(db, op))(col)
              == if col == op.col then MapasDe(db)(op.col) - {op.id} else MapasDe(db)(col)
    {
      if col != op.col { OtherLists(db, op, col); }
    }
  }

  /** In memory, every operation takes the specified step; one that does not reach its write has nothing to change. */
  lemma AplicadaRefines(inicial: Base, db: Base, op: Op)
    requires BaseValida(db) && !op.Restablecer?
    ensures PasoDeMapas(MapasDe(db), op, false, MapasDe(inicial), MapasDe(Aplicada(db, op)))
    ensures !Escribe(db, op) ==> forall col :: MapasDe(Aplicada(db, op))(col) == MapasDe(db)(col)
  {
    match op
    case Crear(c, item) => CrearAplicada(inicial, db, c, item);
    case Actualizar(c, _, _) => ActualizarAplicada(inicial, db, op);
    case Eliminar(c, _) => EliminarAplicada(inicial, db, op);
  }

  lemma SameMapasSameStep(m: Mapas, op: Op, inicial: Mapas, n: Mapas, n': Mapas)
    requires PasoDeMapas(m, op, false, inicial, n) && forall col :: n(col) == n'(col)
    ensures PasoDeMapas(m, op, false, inicial, n')
  {
    if op.Crear? {
      var k :| EsSiguienteId(m(op.col), k) &&
               forall col :: n(col) == if col == op.col then m(op.col)[k := op.item.campos] else m(col);
      assert EsSiguienteId(m(op.col), k);
    }
  }

  /** REFINEMENT, one operation. With the storage readable, the maps that the blob stands for take the specified
      step, and stay when the write fails. When the read fails, the blob stays or is replaced by a step from the
      initial data. */
  lemma SiguienteRefines(inicial: Base, blob: Option<Base>, op: Op, e: Entorno)
    requires BaseValida(inicial) && BlobValido(blob)
    ensures var m := MapasDe(Cargada(inicial, blob, true));
            var sig := Siguiente(inicial, blob, op, e);
            var n := MapasDe(Cargada(inicial, sig, true));
            (e.lectura || op.Restablecer? ==> PasoDeMapas(m, op, !e.escritura, MapasDe(inicial), n)) &&
            (!e.lectura && !op.Restablecer? ==>
               sig == blob || PasoDeMapas(MapasDe(inicial), op, false, MapasDe(inicial), n))
  {
    hide PasoDeMapas, Aplicada, Escribe, MapasDe;
    var db := Cargada(inicial, blob, e.lectura);
    var n := Cargada(inicial, Siguiente(inicial, blob, op, e), true);
    if op.Restablecer? {
      RestablecerRefines(MapasDe(Cargada(inicial, blob, true)), MapasDe(inicial));
    } else {
      AplicadaRefines(inicial, db, op);
      SameMapas(MapasDe(db), op, MapasDe(inicial));
      if !Escribe(db, op) {
        SameMapasSameStep(MapasDe(db), op, MapasDe(inicial), MapasDe(Aplicada(db, op)), MapasDe(db));
      }
    }
  }

  lemma RestablecerRefines(m: Mapas, inicial: Mapas)
    ensures PasoDeMapas(m, Restablecer, true, inicial, m)
    ensures PasoDeMapas(m, Restablecer, false, inicial, inicial)
  {}

  lemma SameMapas(m: Mapas, op: Op, inicial: Mapas)
    ensures PasoDeMapas(m, op, true, inicial, m)
  {}

  /** REFINEMENT, whole runs. In every run, step by step the stored lists behave as finite maps from id to record,
      however many writes are lost; an operation whose read fails leaves the storage or starts it again from the initial
      data. */
  lemma CorridaRefines(inicial: Base, blob: Option<Base>, pasos: seq<Paso>, i: nat)
    requires BaseValida(inicial) && BlobValido(blob) && i < |pasos|
    ensures var antes, despues := Corrida(inicial, blob, pasos[..i]), Corrida(inicial, blob, pasos[..i + 1]);
            var n := MapasDe(Cargada(inicial, despues, true));
            if pasos[i].e.lectura || pasos[i].op.Restablecer?
            then PasoDeMapas(MapasDe(Cargada(inicial, antes, true)), pasos[i].op, !pasos[i].e.escritura,
                             MapasDe(inicial), n)
            else despues == antes || PasoDeMapas(MapasDe(inicial), pasos[i].op, false, MapasDe(inicial), n)
  {
    hide PasoDeMapas, Siguiente, MapasDe, Cargada, BaseValida, BlobValido;
    CorridaValida(inicial, blob, pasos[..i]);
    assert pasos[..i + 1][..i] == pasos[..i];
    SiguienteRefines(inicial, Corrida(inicial, blob, pasos[..i]), pasos[i].op, pasos[i].e);
  }

  // ---------- the store ----------

  class DbSimulada {
    const inicial: Base
    /** The text under the storage key; `None` while there is none. */
    var blob: Option<Base>

    constructor (inicial: Base, blob: Option<Base>)
      ensures this.inicial == inicial && this.blob == blob
    {
      this.inicial := inicial;
      this.blob := blob;
    }

    method CargarBaseDatos(e: Entorno) returns (db: Base)
      modifies this
      ensures db == Cargada(inicial, old(blob), e.lectura)
      ensures blob == Sembrado(inicial, old(blob), e)
      ensures old(blob).Some? ==> blob == old(blob) && (e.lectura ==> db == old(blob).value)
      ensures old(blob).None? ==> db == inicial && blob == if e.lectura && e.siembra then Some(inicial) else None
      ensures !e.lectura ==> db == inicial && blob == old(blob)
    {
      if !e.lectura {
        return inicial;
      }
      match blob {
        case None =>
          if e.siembra {
            blob := Some(inicial);
          }
          db := inicial;
        case Some(datos) =>
          db := datos;
      }
    }

    method PersistirBaseDatos(datos: Base, e: Entorno)
      modifies this
      ensures blob == if e.escritura then Some(datos) else old(blob)
    {
      if e.escritura {
        blob := Some(datos);
      }
    }

    method ObtenerTodos(col: Coleccion, e: Entorno) returns (registros: seq<Registro>)
      modifies this
      ensures registros == Lista(Cargada(inicial, old(blob), e.lectura), col)
      ensures blob == Sembrado(inicial, old(blob), e)
    {
      var db := CargarBaseDatos(e);
      registros := if col in db then db[col] else [];
    }

    method ObtenerPorId(col: Coleccion, id: int, e: Entorno) returns (item: Option<Registro>)
      requires BaseValida(inicial) && BlobValido(blob)
      modifies this
      ensures var m := MapasDe(Cargada(inicial, old(blob), e.lectura))(col);
              item == if id in m then Some(Registro(id, m[id])) else None
      ensures blob == Sembrado(inicial, old(blob), e)
    {
      var db := CargarBaseDatos(e);
      var lista := if col in db then db[col] else [];
      var i := Indice(lista, id);
      item := if i == -1 then None else Some(lista[i]);
      EmptyValid();
      IndiceInMap(lista, id);
    }

    method Crear(col: Coleccion, nuevoItem: Entrada, e: Entorno) returns (registro: Registro)
      modifies this
      ensures blob == Siguiente(inicial, old(blob), Op.Crear(col, nuevoItem), e)
      ensures var antes := Lista(Cargada(inicial, old(blob), e.lectura), col);
              registro.campos == nuevoItem.campos && registro.id == MaxId(antes) + 1 &&
              (forall i :: 0 <= i < |antes| ==> antes[i].id < registro.id) &&
              (e.escritura ==> blob.Some? && Lista(blob.value, col) == antes + [registro])
    {
      var db := CargarBaseDatos(e);
      if col !in db {
        db := db[col := []];
      }
      registro := Registro(MaxId(db[col]) + 1, nuevoItem.campos);
      MaxIdBounds(db[col]);
      db := db[col := db[col] + [registro]];
      PersistirBaseDatos(db, e);
      assert db == Aplicada(Cargada(inicial, old(blob), e.lectura), Op.Crear(col, nuevoItem));
    }

    method Actualizar(col: Coleccion, id: int, cambios: Entrada, e: Entorno) returns (item: Option<Registro>)
      modifies this
      ensures blob == Siguiente(inicial, old(blob), Op.Actualizar(col, id, cambios), e)
      ensures var antes := Lista(Cargada(inicial, old(blob), e.lectura), col);
              item == if Indice(antes, id) == -1 then None
                      else Some(Registro(id, antes[Indice(antes, id)].campos + cambios.campos))
    {
      var db := CargarBaseDatos(e);
      if col !in db {
        return None;
      }
      var index := Indice(db[col], id);
      if index == -1 {
        return None;
      }
      var registro := Registro(db[col][index].id, db[col][index].campos + cambios.campos);
      db := db[col := db[col][index := registro]];
      PersistirBaseDatos(db, e);
      item := Some(registro);
    }

    method Eliminar(col: Coleccion, id: int, e: Entorno) returns (eliminado: bool)
      modifies this
      ensures blob == Siguiente(inicial, old(blob), Op.Eliminar(col, id), e)
      ensures BaseValida(inicial) && BlobValido(old(blob)) ==>
                (eliminado <==> id in MapasDe(Cargada(inicial, old(blob), e.lectura))(col))
    {
      var db := CargarBaseDatos(e);
      ghost var antes := Lista(db, col);
      EmptyValid();
      if Valida(antes) {
        EliminarRefines(antes, id);
      }
      if col !in db {
        return false;
      }
      var longitudInicial := |db[col]|;
      db := db[col := SinId(db[col], id)];
      if |db[col]| < longitudInicial {
        PersistirBaseDatos(db, e);
        return true;
      }
      return false;
    }

    /** The write is outside any `try`, so a failing one throws: `ok` is false and nothing changed. */
    method RestablecerDatos(e: Entorno) returns (ok: bool)
      modifies this
      ensures ok == e.escritura
      ensures blob == Siguiente(inicial, old(blob), Restablecer, e)
    {
      ok := e.escritura;
      if ok {
        blob := Some(inicial);
      }
    }
  }
}
