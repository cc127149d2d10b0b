/** The booking wizard and the status changes as one state machine (frontend/src/pages/BookingPage.jsx and
    frontend/src/App.jsx). A confirmation is two actions: the click, and later the booking itself, which comes after a
    timer and a network call, so other actions may come in between. */
module Reserva {
  import opened Basics
  import opened Registros
  import opened DbSimulada
  import opened ApiCliente
  import opened Precios
  import Scheduling

  // ---------- when a block is taken ----------

  function DecimalNat(n: nat): string {
    var d := ['0' + (n % 10) as char];
    if n < 10 then d else DecimalNat(n / 10) + d
  }

  /** `String(n)` of an integer. */
  function Decimal(n: int): string { if n < 0 then "-" + DecimalNat(-n) else DecimalNat(n) }

  lemma {:induction false} DecimalNatDigits(n: nat)
    ensures DecimalNat(n) != "" && Scheduling.AllDigits(DecimalNat(n))
    ensures Scheduling.DecimalValue(DecimalNat(n)) == n
  {
    var s, c := DecimalNat(n), '0' + (n % 10) as char;
    assert Scheduling.IsDigit(c) && Scheduling.DigitValue(c) == n % 10;
    if n < 10 {
      assert s == [c] && s[..0] == "";
    } else {
      DecimalNatDigits(n / 10);
      assert s == DecimalNat(n / 10) + [c] && s[..|s| - 1] == DecimalNat(n / 10) && s[|s| - 1] == c;
    }
  }

  /** Reading a printed number back returns it. */
  lemma DecimalRoundTrip(n: nat)
    ensures Scheduling.Number(Decimal(n)) == Some(n)
  {
    DecimalNatDigits(n);
  }

  /** Different numbers have different texts. */
  lemma DecimalInjective(m: int, n: int)
    ensures Decimal(m) == Decimal(n) <==> m == n
  {
    DecimalNatDigits(if m < 0 then -m else m);
    DecimalNatDigits(if n < 0 then -n else n);
    hide DecimalNat;
    if m < 0 {
      assert Decimal(m)[0] == '-' && Decimal(m)[1..] == DecimalNat(-m);
    }
    if n < 0 {
      assert Decimal(n)[0] == '-' && Decimal(n)[1..] == DecimalNat(-n);
    }
  }

  /** `String(v)`. */
  function Cadena(v: Valor): string {
    match v
    case Num(n) => Decimal(n)
    case Texto(s) => s
    case Booleano(b) => if b then "true" else "false"
    case Nulo => "null"
  }

  function CadenaDe(campos: Campos, campo: Campo): string {
    if campo in campos then Cadena(campos[campo]) else "undefined"
  }

  /** The texts of the values that are neither numbers nor texts, and of a missing field. */
  lemma OtherTexts(campos: Campos, campo: Campo)
    ensures campo !in campos ==> CadenaDe(campos, campo) == "undefined"
    ensures campo in campos && campos[campo] == Nulo ==> CadenaDe(campos, campo) == "null"
    ensures campo in campos && campos[campo] == Booleano(true) ==> CadenaDe(campos, campo) == "true"
    ensures campo in campos && campos[campo] == Booleano(false) ==> CadenaDe(campos, campo) == "false"
  {}

  /** The field is present with exactly this value. */
  predicate Tiene(campos: Campos, campo: Campo, v: Valor) { campo in campos && campos[campo] == v }

  predicate Cancelada(campos: Campos) { Tiene(campos, Estado, Texto("CANCELADA")) }

  predicate EmpiezaCon(campos: Campos, h: string) {
    Hora in campos && campos[Hora].Texto? && campos[Hora].s != "" && h <= campos[Hora].s
  }

  /** An active appointment of the barber on the day occupies the block `h`; the body of esHoraOcupada. */
  predicate Ocupa(c: Registro, barbero: string, fecha: string, h: string) {
    CadenaDe(c.campos, BarberoId) == barbero && Tiene(c.campos, Fecha, Texto(fecha)) && EmpiezaCon(c.campos, h)
    && !Cancelada(c.campos)
  }

  predicate EsHoraOcupada(citas: seq<Registro>, barbero: string, fecha: string, h: string) {
    exists i :: 0 <= i < |citas| && Ocupa(citas[i], barbero, fecha, h)
  }

  lemma DecimalStart(n: int)
    ensures Decimal(n) != "" && (Decimal(n)[0] == '-' || Scheduling.IsDigit(Decimal(n)[0]))
  {
    DecimalNatDigits(if n < 0 then -n else n);
  }

  /** `String(c.barberoId) === String(barberoId)`: the same number, or a text that writes it; never a missing field. */
  lemma SameBarber(campos: Campos, b: int)
    ensures CadenaDe(campos, BarberoId) == Decimal(b) <==>
            BarberoId in campos &&
            (campos[BarberoId] == Num(b) || campos[BarberoId] == Texto(Decimal(b)))
  {
    DecimalStart(b);
    if BarberoId in campos && campos[BarberoId].Num? {
      DecimalInjective(campos[BarberoId].n, b);
    }
  }

  /** The appointment is of barber number `b` on the day, is not cancelled, and its hour begins with `h`. */
  ghost predicate Toma(c: Registro, b: int, fecha: string, h: string) {
    BarberoId in c.campos && c.campos[BarberoId] == Num(b) && Fecha in c.campos && c.campos[Fecha] == Texto(fecha) &&
    Hora in c.campos && c.campos[Hora].Texto? && c.campos[Hora].s != "" && h <= c.campos[Hora].s &&
    !(Estado in c.campos && c.campos[Estado] == Texto("CANCELADA"))
  }

  /** The appointments name their barbers by number, as the application does. */
  ghost predicate ConNumeros(citas: seq<Registro>) {
    forall c :: c in citas ==> BarberoId in c.campos && c.campos[BarberoId].Num?
  }

  /** A block is occupied exactly when some appointment of that barber number takes it. */
  lemma OccupiedExactlyWhen(citas: seq<Registro>, b: int, fecha: string, h: string)
    requires ConNumeros(citas)
    ensures EsHoraOcupada(citas, Decimal(b), fecha, h) <==> exists c :: c in citas && Toma(c, b, fecha, h)
  {
    hide Decimal, CadenaDe;
    forall c | c in citas
      ensures Ocupa(c, Decimal(b), fecha, h) <==> Toma(c, b, fecha, h)
    {
      SameBarber(c.campos, b);
    }
    hide Ocupa, Toma;
    if EsHoraOcupada(citas, Decimal(b), fecha, h) {
      var i :| 0 <= i < |citas| && Ocupa(citas[i], Decimal(b), fecha, h);
      assert citas[i] in citas;
    }
    forall c | c in citas && Ocupa(c, Decimal(b), fecha, h)
      ensures EsHoraOcupada(citas, Decimal(b), fecha, h)
    {
      var i :| 0 <= i < |citas| && citas[i] == c;
    }
  }

  const BLOQUES_HORAS := ["10:00", "11:00", "12:00", "13:00", "15:00", "16:00", "17:00", "18:00", "19:00"]

  predicate EsBloque(h: string) { h in BLOQUES_HORAS }

  /** No block of a barber's day is occupied by two active appointments. */
  ghost predicate SinDobles(citas: seq<Registro>) {
    forall i, j, barbero, fecha, h :: 0 <= i < j < |citas| && EsBloque(h) ==>
      !(Ocupa(citas[i], barbero, fecha, h) && Ocupa(citas[j], barbero, fecha, h))
  }

  // ---------- the wizard ----------

  datatype Asistente = Asistente(
    paso: int, servicioId: int, sucursalId: int, barberoId: int, fecha: string, hora: string,
    nombres: string, correo: string, telefono: string, codigoPromo: string, descuento: int)

  /** The contact data of a logged-in user; the empty text stands for a missing field. */
  datatype Usuario = Usuario(nombres: string, nombre: string, correo: string, telefono: string)

  const PREFIJO_TELEFONO := "+56 9 "

  /** `s || t` on texts. */
  function O(s: string, t: string): string { if s == "" then t else s }

  function NombresDe(usuario: Option<Usuario>): string {
    if usuario.None? then "" else O(usuario.value.nombres, usuario.value.nombre)
  }

  function CorreoDe(usuario: Option<Usuario>): string { if usuario.None? then "" else usuario.value.correo }

  function TelefonoDe(usuario: Option<Usuario>): string {
    if usuario.None? then PREFIJO_TELEFONO else O(usuario.value.telefono, PREFIJO_TELEFONO)
  }

  /** A mounted page: step 1, hour 11:00, the contact fields of the user, and the preselected coupon checked at once. */
  function Montado(servicioId: int, sucursalId: int, barberoId: int, hoy: string, usuario: Option<Usuario>,
                   codigo: string, promos: seq<Promo>): Asistente
  {
    Asistente(1, servicioId, sucursalId, barberoId, hoy, "11:00", NombresDe(usuario), CorreoDe(usuario),
              TelefonoDe(usuario), codigo, if codigo == "" then 0 else DescuentoDeCupon(promos, codigo))
  }

  /** A login while the page is open fills the contact fields that are still untouched. */
  function ConSesion(a: Asistente, usuario: Usuario): Asistente {
    a.(nombres := O(a.nombres, NombresDe(Some(usuario))),
       correo := O(a.correo, usuario.correo),
       telefono := if a.telefono == "" || a.telefono == PREFIJO_TELEFONO then TelefonoDe(Some(usuario)) else a.telefono)
  }

  /** A freshly mounted page: step 1 with the ids and the day it is given, a free-standing hour, the user's contact data
      as far as there are any, and the percentage of the preselected coupon. */
  lemma MountedPage(servicioId: int, sucursalId: int, barberoId: int, hoy: string, usuario: Option<Usuario>,
                    codigo: string, promos: seq<Promo>)
    ensures var m := Montado(servicioId, sucursalId, barberoId, hoy, usuario, codigo, promos);
            m.paso == 1 && m.servicioId == servicioId && m.sucursalId == sucursalId && m.barberoId == barberoId &&
            m.fecha == hoy && m.hora == "11:00" && m.codigoPromo == codigo &&
            (usuario.None? ==> m.nombres == "" && m.correo == "" && m.telefono == "+56 9 ") &&
            (usuario.Some? ==>
               var u := usuario.value;
               (u.nombres != "" ==> m.nombres == u.nombres) && (u.nombres == "" ==> m.nombres == u.nombre) &&
               m.correo == u.correo &&
               (u.telefono != "" ==> m.telefono == u.telefono) && (u.telefono == "" ==> m.telefono == "+56 9 ")) &&
            (codigo == "" ==> m.descuento == 0) && (codigo != "" ==> m.descuento == DescuentoDeCupon(promos, codigo))
  {}

  /** A login keeps everything that was typed and fills the rest from the user. */
  lemma LoginKeepsTyped(a: Asistente, u: Usuario)
    ensures var b := ConSesion(a, u);
            b.(nombres := a.nombres, correo := a.correo, telefono := a.telefono) == a &&
            (a.nombres != "" ==> b.nombres == a.nombres) &&
            (a.nombres == "" ==> b.nombres == u.nombres || (u.nombres == "" && b.nombres == u.nombre)) &&
            (a.nombres == "" && u.nombres == "" ==> b.nombres == u.nombre) &&
            (a.correo != "" ==> b.correo == a.correo) && (a.correo == "" ==> b.correo == u.correo) &&
            (a.telefono != "" && a.telefono != "+56 9 " ==> b.telefono == a.telefono) &&
            ((a.telefono == "" || a.telefono == "+56 9 ") && u.telefono != "" ==> b.telefono == u.telefono) &&
            ((a.telefono == "" || a.telefono == "+56 9 ") && u.telefono == "" ==> b.telefono == "+56 9 ")
  {}

  /** Whether the checks of the current step let the wizard move on. */
  predicate PuedeAvanzar(a: Asistente, citas: seq<Registro>, correoValido: bool) {
    if a.paso == 1 then a.servicioId != 0
    else if a.paso == 2 then a.sucursalId != 0 && a.barberoId != 0
    else if a.paso == 3 then
      a.fecha != "" && a.hora != "" && !EsHoraOcupada(citas, Decimal(a.barberoId), a.fecha, a.hora)
    else if a.paso == 4 then Trim(a.nombres) != "" && Trim(a.correo) != "" && Trim(a.telefono) != "" && correoValido
    else true
  }

  /** What the confirmation sends on. */
  datatype Pedido = Pedido(
    barberoId: int, clienteId: int, fecha: string, hora: string, costo: int, descuento: int, total: int)

  function PedidoDe(a: Asistente, precioBase: int, clienteId: int): Pedido {
    Pedido(a.barberoId, clienteId, a.fecha, a.hora, precioBase,
           MontoDescuento(precioBase, a.descuento), TotalPagar(precioBase, a.descuento))
  }

  /** The confirmation is for the page's barber, day and hour, for the client it is given, at the page's price. */
  lemma PedidoKeepsChoice(a: Asistente, precio: int, cliente: int)
    ensures var p := PedidoDe(a, precio, cliente);
            p.fecha == a.fecha && p.hora == a.hora && p.barberoId == a.barberoId && p.clienteId == cliente &&
            p.costo == precio && p.descuento == MontoDescuento(precio, a.descuento) && p.total == precio - p.descuento
  {}

  function CamposDe(p: Pedido): Campos {
    map[BarberoId := Num(p.barberoId), ClienteId := Num(p.clienteId), Fecha := Texto(p.fecha), Hora := Texto(p.hora),
        Costo := Num(p.costo), DescuentoAplicado := Num(p.descuento), TotalFinal := Num(p.total)]
  }

  /** The record that is sent on carries these fields and no others. */
  lemma FieldsOfPedido(p: Pedido, campo: Campo, v: Valor)
    ensures Tiene(CamposDe(p), campo, v) <==>
            (campo == BarberoId && v == Num(p.barberoId)) || (campo == ClienteId && v == Num(p.clienteId)) ||
            (campo == Fecha && v == Texto(p.fecha)) || (campo == Hora && v == Texto(p.hora)) ||
            (campo == Costo && v == Num(p.costo)) || (campo == DescuentoAplicado && v == Num(p.descuento)) ||
            (campo == TotalFinal && v == Num(p.total))
  {}

  const FECHA_RECHAZADA := "2099-01-01"

  // ---------- the whole application ----------

  /** `blob` is the storage, `citas` the appointments that the application shows, and `pendientes` are the confirmations
      that were clicked and have not been booked yet. */
  datatype EstadoApp = EstadoApp(
    blob: Option<Base>, citas: seq<Registro>, asistente: Option<Asistente>, pendientes: seq<Pedido>)

  /** `e` is how the storage behaves during the operation of an action, `r` during the reload behind it. */
  datatype Accion =
    | Abrir(servicioId: int, sucursalId: int, barberoId: int, hoy: string, usuario: Option<Usuario>, codigo: string,
            promos: seq<Promo>)
    | IniciarSesion(usuarioNuevo: Usuario)
    | Salir
    | ElegirServicio(id: int)
    | ElegirSucursal(id: int)
    | ElegirBarbero(id: int)
    | ElegirFecha(fecha: string)
    | ElegirHora(hora: string)
    | EscribirContacto(nombres: string, correo: string, telefono: string)
    | EscribirCodigo(codigo: string)
    | AplicarCupon(promos: seq<Promo>)
    | Avanzar(correoValido: bool)
    | Retroceder
    | Confirmar(precioBase: nat, clienteId: int)
    | Completar(i: nat, codigo: string, red: Red, e: Entorno, r: Entorno)
    | CambiarEstadoCita(id: int, estado: string, red: Red, e: Entorno, r: Entorno)
    | RestablecerTodo(e: Entorno, r: Entorno)
    | Mantener(op: Op, e: Entorno, r: Entorno)

  /** The steps inside the wizard; a control that is not on the screen of the current step does nothing. */
  function EnAsistente(a: Asistente, citas: seq<Registro>, accion: Accion): Asistente {
    match accion
    case IniciarSesion(usuario) => ConSesion(a, usuario)
    case ElegirServicio(id) => if a.paso == 1 then a.(servicioId := id) else a
    case ElegirSucursal(id) => if a.paso == 2 then a.(sucursalId := id) else a
    case ElegirBarbero(id) => if a.paso == 2 then a.(barberoId := id) else a
    case ElegirFecha(fecha) => if a.paso == 3 then a.(fecha := fecha) else a
    case ElegirHora(hora) =>
      if a.paso == 3 && EsBloque(hora) && !EsHoraOcupada(citas, Decimal(a.barberoId), a.fecha, hora)
      then a.(hora := hora) else a
    case EscribirContacto(nombres, correo, telefono) =>
      if a.paso == 4 then a.(nombres := nombres, correo := correo, telefono := telefono) else a
    case EscribirCodigo(codigo) => if a.paso == 4 then a.(codigoPromo := codigo) else a
    case AplicarCupon(promos) => if a.paso == 4 then a.(descuento := DescuentoDeCupon(promos, a.codigoPromo)) else a
    case Avanzar(correoValido) =>
      if a.paso < 5 && PuedeAvanzar(a, citas, correoValido) then a.(paso := a.paso + 1) else a
    case Retroceder => if a.paso > 1 then a.(paso := a.paso - 1) else a
    case _ => a
  }

  /** From which step the wizard moves on: from 1 with a service, from 2 with a branch and a barber, from 3 with a day
      and an hour whose block is not occupied, from 4 with three texts that are not blank and a valid e-mail, from 5
      never. */
  lemma AvanzaExactlyWhen(a: Asistente, citas: seq<Registro>, correoValido: bool)
    requires 1 <= a.paso <= 5
    ensures var b := EnAsistente(a, citas, Avanzar(correoValido));
            b.(paso := a.paso) == a && (b.paso == a.paso || b.paso == a.paso + 1) &&
            (a.paso == 1 ==> (b.paso == 2 <==> a.servicioId != 0)) &&
            (a.paso == 2 ==> (b.paso == 3 <==> a.sucursalId != 0 && a.barberoId != 0)) &&
            (a.paso == 3 ==> (b.paso == 4 <==> a.fecha != "" && a.hora != "" &&
                                               !EsHoraOcupada(citas, Decimal(a.barberoId), a.fecha, a.hora))) &&
            (a.paso == 4 ==> (b.paso == 5 <==> !EnBlanco(a.nombres) && !EnBlanco(a.correo) && !EnBlanco(a.telefono) &&
                                               correoValido)) &&
            (a.paso == 5 ==> b.paso == 5)
  {
    hide EsHoraOcupada, Decimal, EsBlanco, Trim;
    TrimBlank(a.nombres);
    TrimBlank(a.correo);
    TrimBlank(a.telefono);
  }

  /** Every control of the wizard sets its own field on its own step, and nothing else or anywhere else. */
  lemma ControlsOfSteps(a: Asistente, citas: seq<Registro>, accion: Accion)
    ensures var b := EnAsistente(a, citas, accion);
            match accion
            case ElegirServicio(id) => b.(servicioId := a.servicioId) == a && (b == a || a.paso == 1) &&
                                       (a.paso == 1 ==> b.servicioId == id)
            case ElegirSucursal(id) => b.(sucursalId := a.sucursalId) == a && (b == a || a.paso == 2) &&
                                       (a.paso == 2 ==> b.sucursalId == id)
            case ElegirBarbero(id) => b.(barberoId := a.barberoId) == a && (b == a || a.paso == 2) &&
                                      (a.paso == 2 ==> b.barberoId == id)
            case ElegirFecha(f) => b.(fecha := a.fecha) == a && (b == a || a.paso == 3) &&
                                   (a.paso == 3 ==> b.fecha == f)
            case ElegirHora(h) => b.(hora := a.hora) == a && (b.hora == a.hora || b.hora == h) &&
                                  (b == a || a.paso == 3) &&
                                  (a.paso == 3 && EsBloque(h) && h != a.hora ==>
                                     (b.hora == h <==> !EsHoraOcupada(citas, Decimal(a.barberoId), a.fecha, h)))
            case EscribirContacto(n, c, t) =>
              b.(nombres := a.nombres, correo := a.correo, telefono := a.telefono) == a && (b == a || a.paso == 4) &&
              (a.paso == 4 ==> b.nombres == n && b.correo == c && b.telefono == t)
            case EscribirCodigo(c) => b.(codigoPromo := a.codigoPromo) == a && (b == a || a.paso == 4) &&
                                      (a.paso == 4 ==> b.codigoPromo == c)
            case AplicarCupon(promos) => b.(descuento := a.descuento) == a && (b == a || a.paso == 4) &&
                                         (a.paso == 4 ==> b.descuento == DescuentoDeCupon(promos, a.codigoPromo))
            case Retroceder => b.(paso := a.paso) == a && b.paso == if a.paso > 1 then a.paso - 1 else a.paso
            case _ => true
  {
    hide EsHoraOcupada, Decimal, EsBloque;
  }

  /** The stored appointments. */
  function CitasDe(inicial: Base, blob: Option<Base>): seq<Registro> {
    Lista(Cargada(inicial, blob, true), Citas)
  }

  /** The appointments that an operation or a reload gets to see: the initial ones when its read fails. */
  function Cargadas(inicial: Base, blob: Option<Base>, e: Entorno): seq<Registro> {
    Lista(Cargada(inicial, blob, e.lectura), Citas)
  }

  /** An operation and the reload of the appointments behind it. */
  function TrasOp(inicial: Base, s: EstadoApp, op: Op, e: Entorno, r: Entorno): EstadoApp {
    var blob := Siguiente(inicial, s.blob, op, e);
    s.(blob := Sembrado(inicial, blob, r), citas := Cargadas(inicial, blob, r))
  }

  /** An operation on another collection, which reloads that collection only. */
  function TrasMantener(inicial: Base, s: EstadoApp, op: Op, e: Entorno, r: Entorno): EstadoApp {
    s.(blob := Sembrado(inicial, Siguiente(inicial, s.blob, op, e), r))
  }

  function OpDePedido(p: Pedido, codigo: string, red: Red): Op { OpLocal(Agendar(CamposDe(p), codigo), red) }

  function Ejecutar(inicial: Base, s: EstadoApp, accion: Accion): EstadoApp {
    match accion
    case Abrir(servicioId, sucursalId, barberoId, hoy, usuario, codigo, promos) =>
      if s.asistente.Some? then s
      else s.(asistente := Some(Montado(servicioId, sucursalId, barberoId, hoy, usuario, codigo, promos)))
    case Salir => s.(asistente := None)
    case Confirmar(precioBase, clienteId) =>
      if s.asistente.Some? && s.asistente.value.paso == 5
      then s.(pendientes := s.pendientes + [PedidoDe(s.asistente.value, precioBase, clienteId)])
      else s
    case Completar(i, codigo, red, e, r) =>
      if i >= |s.pendientes| then s
      else
        var p := s.pendientes[i];
        var t := s.(pendientes := s.pendientes[..i] + s.pendientes[i + 1..], asistente := None);
        if p.fecha == FECHA_RECHAZADA then t else TrasOp(inicial, t, OpDePedido(p, codigo, red), e, r)
    case CambiarEstadoCita(id, estado, red, e, r) =>
      TrasOp(inicial, s, OpLocal(CambiarEstado(id, estado), red), e, r)
    case RestablecerTodo(e, r) =>
      if s.asistente.Some? || !e.escritura then s else TrasOp(inicial, s, Restablecer, e, r)
    case Mantener(op, e, r) => if op.Restablecer? || op.col == Citas then s else TrasMantener(inicial, s, op, e, r)
    case _ => if s.asistente.Some? then s.(asistente := Some(EnAsistente(s.asistente.value, s.citas, accion))) else s
  }

  /** A confirmation for the day 2099-01-01 is refused: nothing is stored, the page is left. Every other one is booked,
      and the appointments are shown as the reload sees them. */
  lemma RefusedDay(inicial: Base, s: EstadoApp, i: nat, codigo: string, red: Red, e: Entorno, r: Entorno)
    requires i < |s.pendientes|
    ensures var t := Ejecutar(inicial, s, Completar(i, codigo, red, e, r));
            var p := s.pendientes[i];
            t.asistente == None && t.pendientes == s.pendientes[..i] + s.pendientes[i + 1..] &&
            (p.fecha == "2099-01-01" ==> t.blob == s.blob && t.citas == s.citas) &&
            (p.fecha != "2099-01-01" ==>
               var blob := Siguiente(inicial, s.blob, OpDePedido(p, codigo, red), e);
               t.blob == Sembrado(inicial, blob, r) && t.citas == Lista(Cargada(inicial, blob, r.lectura), Citas))
  {
    hide Siguiente, Sembrado, OpDePedido;
  }

  /** What the other actions leave alone, and what their reload shows. */
  lemma ActionsOfApp(inicial: Base, s: EstadoApp, accion: Accion)
    ensures var t := Ejecutar(inicial, s, accion);
            match accion
            case Abrir(servicio, sucursal, barbero, hoy, _, codigo, _) =>
              t.(asistente := s.asistente) == s && t.asistente.Some? && (s.asistente.Some? ==> t == s) &&
              (s.asistente.None? ==>
                 var a := t.asistente.value;
                 a.paso == 1 && a.servicioId == servicio && a.sucursalId == sucursal && a.barberoId == barbero &&
                 a.fecha == hoy && a.codigoPromo == codigo)
            case Salir => t == s.(asistente := None)
            case Confirmar(precio, cliente) =>
              t.(pendientes := s.pendientes) == s && s.pendientes <= t.pendientes &&
              (|t.pendientes| == |s.pendientes| + 1 <==> s.asistente.Some? && s.asistente.value.paso == 5) &&
              (s.asistente.Some? && s.asistente.value.paso == 5 ==>
                 var p := t.pendientes[|s.pendientes|];
                 p.clienteId == cliente && p.costo == precio && p.barberoId == s.asistente.value.barberoId &&
                 p.fecha == s.asistente.value.fecha && p.hora == s.asistente.value.hora)
            case Completar(_, _, _, _, _) => true
            case CambiarEstadoCita(id, estado, red, e, r) =>
              var blob := Siguiente(inicial, s.blob, Actualizar(Citas, id, ConEstado(estado)), e);
              t.asistente == s.asistente && t.pendientes == s.pendientes &&
              t.blob == Sembrado(inicial, blob, r) && t.citas == Lista(Cargada(inicial, blob, r.lectura), Citas)
            case RestablecerTodo(e, _) =>
              t.asistente == s.asistente && t.pendientes == s.pendientes &&
              (if s.asistente.None? && e.escritura then t.blob == Some(inicial) else t == s)
            case Mantener(op, e, r) =>
              t.(blob := s.blob) == s &&
              (if op.Restablecer? || op.col == Citas then t == s
               else t.blob == Sembrado(inicial, Siguiente(inicial, s.blob, op, e), r))
            case _ =>
              t.(asistente := s.asistente) == s && (s.asistente.None? ==> t == s) &&
              (s.asistente.Some? ==> t.asistente == Some(EnAsistente(s.asistente.value, s.citas, accion)))
  {
    hide EnAsistente, CamposDe, OpDePedido;
    if accion.RestablecerTodo? {
    } else {
      hide Siguiente, Sembrado;
    }
  }

  function Correr(inicial: Base, s: EstadoApp, acciones: seq<Accion>): EstadoApp
    decreases |acciones|
  {
    if acciones == [] then s else Correr(inicial, Ejecutar(inicial, s, acciones[0]), acciones[1..])
  }

  // ---------- the invariant ----------

  ghost predicate Libre(citas: seq<Registro>, barberoId: int, fecha: string, hora: string) {
    EsBloque(hora) && !EsHoraOcupada(citas, Decimal(barberoId), fecha, hora)
  }

  ghost predicate AsistenteBien(a: Asistente, citas: seq<Registro>) {
    1 <= a.paso <= 5 && EsBloque(a.hora) && (a.paso >= 4 ==> Libre(citas, a.barberoId, a.fecha, a.hora))
  }

  ghost predicate PedidoLibre(p: Pedido, citas: seq<Registro>) { Libre(citas, p.barberoId, p.fecha, p.hora) }

  ghost predicate Bien(inicial: Base, s: EstadoApp) {
    && s.citas == CitasDe(inicial, s.blob)
    && SinDobles(s.citas)
    && (s.asistente.Some? ==> AsistenteBien(s.asistente.value, s.citas))
    && |s.pendientes| <= 1
    && (s.pendientes != [] ==> PedidoLibre(s.pendientes[0], s.citas))
  }

  /** The status change makes a cancelled appointment active again. */
  predicate Revive(citas: seq<Registro>, id: int, estado: string) {
    var i := Indice(citas, id);
    i != -1 && Cancelada(citas[i].campos) && estado != "CANCELADA"
  }

  /** The guard of the theorem: nothing is confirmed and no data is restored while a confirmation is outstanding, no
      cancelled appointment is revived, and the storage can be read. */
  predicate Prudente(s: EstadoApp, accion: Accion) {
    match accion
    case Confirmar(_, _) => s.pendientes == []
    case Completar(_, _, _, e, r) => e.lectura && r.lectura
    case CambiarEstadoCita(id, estado, _, e, r) => e.lectura && r.lectura && !Revive(s.citas, id, estado)
    case RestablecerTodo(_, _) => s.pendientes == []
    case Mantener(_, e, _) => e.lectura
    case _ => true
  }

  /** What is not prudent: confirming or restoring while a confirmation is outstanding, reviving a cancelled
      appointment, and a read that fails. */
  lemma PrudenteExactlyWhen(s: EstadoApp, accion: Accion)
    ensures !Prudente(s, accion) <==>
            ((accion.Confirmar? || accion.RestablecerTodo?) && s.pendientes != []) ||
            ((accion.Completar? || accion.CambiarEstadoCita?) && !(accion.e.lectura && accion.r.lectura)) ||
            (accion.Mantener? && !accion.e.lectura) ||
            (accion.CambiarEstadoCita? && Revive(s.citas, accion.id, accion.estado))
  {}

  predicate CorridaPrudente(inicial: Base, s: EstadoApp, acciones: seq<Accion>)
    decreases |acciones|
  {
    acciones == [] ||
    (Prudente(s, acciones[0]) && CorridaPrudente(inicial, Ejecutar(inicial, s, acciones[0]), acciones[1..]))
  }

  // ---------- how the list of appointments changes ----------

  lemma BloquesHaveFiveLetters(g: string, h: string)
    requires EsBloque(g) && EsBloque(h) && h <= g
    ensures g == h
  {
    assert |g| == 5 && |h| == 5;
  }

  function CitaNueva(citas: seq<Registro>, p: Pedido, codigo: string): Registro {
    Registro(MaxId(citas) + 1, CitaCompleta(CamposDe(p), codigo))
  }

  lemma NuevaOcupa(citas: seq<Registro>, p: Pedido, codigo: string, barbero: string, fecha: string, h: string)
    requires EsBloque(p.hora) && EsBloque(h)
    ensures Ocupa(CitaNueva(citas, p, codigo), barbero, fecha, h)
            <==> barbero == Decimal(p.barberoId) && fecha == p.fecha && h == p.hora
  {
    if h <= p.hora {
      BloquesHaveFiveLetters(p.hora, h);
    }
  }

  /** The same for barber numbers: a stored booking occupies the block for its own barber only. */
  lemma NuevaOcupaBarbero(citas: seq<Registro>, p: Pedido, codigo: string, b: int, fecha: string, h: string)
    requires EsBloque(p.hora) && EsBloque(h)
    ensures Ocupa(CitaNueva(citas, p, codigo), Decimal(b), fecha, h)
            <==> b == p.barberoId && fecha == p.fecha && h == p.hora
  {
    hide Ocupa, EsBloque, Decimal, CitaNueva;
    NuevaOcupa(citas, p, codigo, Decimal(b), fecha, h);
    DecimalInjective(b, p.barberoId);
  }

  /** A booking keeps the days free of double bookings exactly when its block is free at the moment it is stored. */
  lemma AgendarSafeExactlyWhenFree(citas: seq<Registro>, p: Pedido, codigo: string)
    requires SinDobles(citas) && EsBloque(p.hora)
    ensures SinDobles(citas + [CitaNueva(citas, p, codigo)]) <==> PedidoLibre(p, citas)
  {
    hide Ocupa, EsBloque, Decimal, MaxId;
    var c := CitaNueva(citas, p, codigo);
    var t := citas + [c];
    if PedidoLibre(p, citas) {
      forall i, j, barbero, fecha, h | 0 <= i < j < |t| && EsBloque(h)
        ensures !(Ocupa(t[i], barbero, fecha, h) && Ocupa(t[j], barbero, fecha, h))
      {
        NuevaOcupa(citas, p, codigo, barbero, fecha, h);
      }
    } else {
      var i :| 0 <= i < |citas| && Ocupa(citas[i], Decimal(p.barberoId), p.fecha, p.hora);
      NuevaOcupa(citas, p, codigo, Decimal(p.barberoId), p.fecha, p.hora);
      assert t[i] == citas[i] && t[|citas|] == c;
    }
  }

  function ConNuevoEstado(citas: seq<Registro>, id: int, estado: string): seq<Registro> {
    Actualizada(citas, id, ConEstado(estado))
  }

  lemma EstadoOcupa(c: Registro, estado: string, barbero: string, fecha: string, h: string)
    ensures Ocupa(Cambiado(c, ConEstado(estado)), barbero, fecha, h)
            <==> estado != "CANCELADA" && Ocupa(Cambiado(c, ConEstado("CONFIRMADA")), barbero, fecha, h)
    ensures !Cancelada(c.campos) && Ocupa(Cambiado(c, ConEstado(estado)), barbero, fecha, h) ==>
              Ocupa(c, barbero, fecha, h)
  {}

  /** A status change that revives nothing occupies no new block. */
  lemma CambioOcupaMenos(
    citas: seq<Registro>, id: int, estado: string, i: nat, barbero: string, fecha: string, h: string)
    requires i < |citas| && !Revive(citas, id, estado)
    requires Ocupa(ConNuevoEstado(citas, id, estado)[i], barbero, fecha, h)
    ensures Ocupa(citas[i], barbero, fecha, h)
  {
    EstadoOcupa(citas[i], estado, barbero, fecha, h);
  }

  lemma CambioMantieneLibre(citas: seq<Registro>, id: int, estado: string)
    requires !Revive(citas, id, estado)
    ensures SinDobles(citas) ==> SinDobles(ConNuevoEstado(citas, id, estado))
    ensures forall b, f, h :: Libre(citas, b, f, h) ==> Libre(ConNuevoEstado(citas, id, estado), b, f, h)
  {
    hide Ocupa, EsBloque, Decimal, Revive;
    var t := ConNuevoEstado(citas, id, estado);
    forall i, barbero, fecha, h | 0 <= i < |t| && Ocupa(t[i], barbero, fecha, h)
      ensures Ocupa(citas[i], barbero, fecha, h)
    {
      CambioOcupaMenos(citas, id, estado, i, barbero, fecha, h);
    }
  }

  /** The day of the record itself is free: the test a booking makes, for the record's own barber, day and blocks. */
  ghost predicate TurnoLibre(citas: seq<Registro>, campos: Campos) {
    forall fecha, h :: EsBloque(h) && Tiene(campos, Fecha, Texto(fecha)) && EmpiezaCon(campos, h) ==>
      !EsHoraOcupada(citas, CadenaDe(campos, BarberoId), fecha, h)
  }

  lemma RevivedOcupa(c: Registro, estado: string, barbero: string, fecha: string, h: string)
    requires estado != "CANCELADA"
    ensures Ocupa(Cambiado(c, ConEstado(estado)), barbero, fecha, h)
            <==> CadenaDe(c.campos, BarberoId) == barbero && Tiene(c.campos, Fecha, Texto(fecha)) &&
                 EmpiezaCon(c.campos, h)
  {}

  lemma CancelledOccupiesNothing(c: Registro, barbero: string, fecha: string, h: string)
    requires Cancelada(c.campos)
    ensures !Ocupa(c, barbero, fecha, h)
  {}

  lemma ReviveSafeWhenFree(citas: seq<Registro>, id: int, estado: string)
    requires SinDobles(citas) && Revive(citas, id, estado) && TurnoLibre(citas, citas[Indice(citas, id)].campos)
    ensures SinDobles(ConNuevoEstado(citas, id, estado))
  {
    hide Ocupa, EsBloque, CadenaDe, Tiene, EmpiezaCon;
    var r := Indice(citas, id);
    var t := ConNuevoEstado(citas, id, estado);
    forall i, j, barbero, fecha, h | 0 <= i < j < |t| && EsBloque(h)
      ensures !(Ocupa(t[i], barbero, fecha, h) && Ocupa(t[j], barbero, fecha, h))
    {
      RevivedOcupa(citas[r], estado, barbero, fecha, h);
      assert i != r ==> t[i] == citas[i];
      assert j != r ==> t[j] == citas[j];
    }
  }

  lemma ReviveSafeOnlyWhenFree(citas: seq<Registro>, id: int, estado: string)
    requires Revive(citas, id, estado) && SinDobles(ConNuevoEstado(citas, id, estado))
    ensures TurnoLibre(citas, citas[Indice(citas, id)].campos)
  {
    var r := Indice(citas, id);
    var t, c := ConNuevoEstado(citas, id, estado), citas[r];
    var barbero := CadenaDe(c.campos, BarberoId);
    hide Ocupa, EsBloque, CadenaDe, Tiene, EmpiezaCon, Cancelada;
    forall fecha, h, j | EsBloque(h) && Tiene(c.campos, Fecha, Texto(fecha)) && EmpiezaCon(c.campos, h) &&
                         0 <= j < |citas|
      ensures !Ocupa(citas[j], barbero, fecha, h)
    {
      RevivedOcupa(c, estado, barbero, fecha, h);
      CancelledOccupiesNothing(c, barbero, fecha, h);
      assert t[r] == Cambiado(c, ConEstado(estado));
      assert j != r ==> t[j] == citas[j];
    }
  }

  /** Reviving a cancelled appointment keeps the days free of double bookings exactly when its own turn is still free.
      The admin buttons do not check this. */
  lemma ReviveSafeExactlyWhenFree(citas: seq<Registro>, id: int, estado: string)
    requires SinDobles(citas) && Revive(citas, id, estado)
    ensures SinDobles(ConNuevoEstado(citas, id, estado)) <==> TurnoLibre(citas, citas[Indice(citas, id)].campos)
  {
    hide SinDobles, TurnoLibre, ConNuevoEstado;
    if TurnoLibre(citas, citas[Indice(citas, id)].campos) {
      ReviveSafeWhenFree(citas, id, estado);
    }
    if SinDobles(ConNuevoEstado(citas, id, estado)) {
      ReviveSafeOnlyWhenFree(citas, id, estado);
    }
  }

  // ---------- every prudent run ----------

  lemma SeedingStoresTheSame(inicial: Base, blob: Option<Base>, r: Entorno)
    ensures CitasDe(inicial, Sembrado(inicial, blob, r)) == CitasDe(inicial, blob)
    ensures Cargadas(inicial, blob, r) == if r.lectura then CitasDe(inicial, blob) else CitasDe(inicial, None)
  {}

  /** The stored appointments after an operation, from those that it loaded. */
  lemma StoredAfterOp(inicial: Base, blob: Option<Base>, op: Op, e: Entorno)
    requires !op.Restablecer?
    ensures var db := Cargada(inicial, blob, e.lectura);
            var l := Cargadas(inicial, blob, e);
            CitasDe(inicial, Siguiente(inicial, blob, op, e))
            == if !Escribe(db, op) || !e.escritura then CitasDe(inicial, blob)
               else if op.col == Citas then ListaTras(l, op) else l
  {
    hide SinId, MaxId, Escribe, Aplicada, ListaTras;
    ListaDeAplicada(Cargada(inicial, blob, e.lectura), op, Citas);
  }

  lemma BookedStored(inicial: Base, blob: Option<Base>, p: Pedido, codigo: string, red: Red, e: Entorno)
    ensures var l := Cargadas(inicial, blob, e);
            CitasDe(inicial, Siguiente(inicial, blob, OpDePedido(p, codigo, red), e))
            == if e.escritura then l + [CitaNueva(l, p, codigo)] else CitasDe(inicial, blob)
  {
    hide SinId, MaxId;
    StoredAfterOp(inicial, blob, OpDePedido(p, codigo, red), e);
  }

  lemma ChangedStored(inicial: Base, blob: Option<Base>, id: int, estado: string, red: Red, e: Entorno)
    ensures var l := Cargadas(inicial, blob, e);
            CitasDe(inicial, Siguiente(inicial, blob, OpLocal(CambiarEstado(id, estado), red), e))
            == if e.escritura && Indice(l, id) != -1 then ConNuevoEstado(l, id, estado) else CitasDe(inicial, blob)
  {
    hide SinId, MaxId;
    StoredAfterOp(inicial, blob, OpLocal(CambiarEstado(id, estado), red), e);
  }

  /** With reads that succeed the shown appointments are the stored ones, and only an operation on them changes them. */
  lemma BookedCitas(inicial: Base, s: EstadoApp, p: Pedido, codigo: string, red: Red, e: Entorno, r: Entorno)
    requires s.citas == CitasDe(inicial, s.blob) && e.lectura && r.lectura
    ensures var t := TrasOp(inicial, s, OpDePedido(p, codigo, red), e, r);
            t.citas == CitasDe(inicial, t.blob) &&
            t.citas == if e.escritura then s.citas + [CitaNueva(s.citas, p, codigo)] else s.citas
  {
    hide Siguiente, OpDePedido, CitaNueva;
    BookedStored(inicial, s.blob, p, codigo, red, e);
    SeedingStoresTheSame(inicial, Siguiente(inicial, s.blob, OpDePedido(p, codigo, red), e), r);
  }

  lemma ChangedCitas(inicial: Base, s: EstadoApp, id: int, estado: string, red: Red, e: Entorno, r: Entorno)
    requires s.citas == CitasDe(inicial, s.blob) && e.lectura && r.lectura
    ensures var t := TrasOp(inicial, s, OpLocal(CambiarEstado(id, estado), red), e, r);
            t.citas == CitasDe(inicial, t.blob) &&
            t.citas == if e.escritura then ConNuevoEstado(s.citas, id, estado) else s.citas
  {
    hide Siguiente;
    ChangedStored(inicial, s.blob, id, estado, red, e);
    SeedingStoresTheSame(inicial, Siguiente(inicial, s.blob, OpLocal(CambiarEstado(id, estado), red), e), r);
  }

  /** An operation on another collection keeps the stored appointments, or stores the initial ones when it could not
      read. */
  lemma MaintainedStored(inicial: Base, s: EstadoApp, op: Op, e: Entorno, r: Entorno)
    requires !op.Restablecer? && op.col != Citas
    ensures CitasDe(inicial, TrasMantener(inicial, s, op, e, r).blob)
            == if !e.lectura && e.escritura && Escribe(inicial, op) then CitasDe(inicial, None)
               else CitasDe(inicial, s.blob)
  {
    hide Siguiente, Escribe;
    StoredAfterOp(inicial, s.blob, op, e);
    SeedingStoresTheSame(inicial, Siguiente(inicial, s.blob, op, e), r);
  }

  lemma WizardStepKeeps(a: Asistente, citas: seq<Registro>, accion: Accion)
    requires AsistenteBien(a, citas)
    ensures AsistenteBien(EnAsistente(a, citas, accion), citas)
  {
    hide EsHoraOcupada, Decimal, EsBloque;
  }

  lemma OnceIsBlock()
    ensures EsBloque("11:00")
  {
    assert BLOQUES_HORAS[1] == "11:00";
  }

  lemma MontadoBien(a: Asistente, citas: seq<Registro>)
    requires a.paso == 1 && a.hora == "11:00"
    ensures AsistenteBien(a, citas)
  {
    OnceIsBlock();
  }

  lemma CompletarKeepsBien(inicial: Base, s: EstadoApp, accion: Accion)
    requires Bien(inicial, s) && accion.Completar? && Prudente(s, accion)
    ensures Bien(inicial, Ejecutar(inicial, s, accion))
  {
    hide SinDobles, PedidoLibre, Siguiente, OpDePedido, CitaNueva;
    if accion.i < |s.pendientes| {
      var p := s.pendientes[accion.i];
      BookedCitas(inicial, s.(pendientes := [], asistente := None), p, accion.codigo, accion.red, accion.e, accion.r);
      assert EsBloque(p.hora) by { assert PedidoLibre(p, s.citas); BlockOf(p, s.citas); }
      AgendarSafeExactlyWhenFree(s.citas, p, accion.codigo);
    }
  }

  lemma BlockOf(p: Pedido, citas: seq<Registro>)
    requires PedidoLibre(p, citas)
    ensures EsBloque(p.hora)
  {}

  lemma CambioKeepsBien(inicial: Base, s: EstadoApp, accion: Accion)
    requires Bien(inicial, s) && accion.CambiarEstadoCita? && Prudente(s, accion)
    ensures Bien(inicial, Ejecutar(inicial, s, accion))
  {
    hide SinDobles, Libre, Siguiente, EsBloque, Revive;
    ChangedCitas(inicial, s, accion.id, accion.estado, accion.red, accion.e, accion.r);
    CambioMantieneLibre(s.citas, accion.id, accion.estado);
  }

  /** One prudent action keeps: the shown appointments are the stored ones, no block is booked twice, the wizard is at
      step 1..5 with one of the blocks chosen, from step 4 on that block is free, and at most one confirmation is
      outstanding, for a free block. */
  lemma EjecutarKeepsBien(inicial: Base, s: EstadoApp, accion: Accion)
    requires SinDobles(CitasDe(inicial, None)) && Bien(inicial, s) && Prudente(s, accion)
    ensures Bien(inicial, Ejecutar(inicial, s, accion))
  {
    hide SinDobles, Libre, Siguiente, EsBloque, OpDePedido, EnAsistente;
    match accion
    case Abrir(servicioId, sucursalId, barberoId, hoy, usuario, codigo, promos) =>
      MontadoBien(Montado(servicioId, sucursalId, barberoId, hoy, usuario, codigo, promos), s.citas);
    case Completar(_, _, _, _, _) => CompletarKeepsBien(inicial, s, accion);
    case CambiarEstadoCita(_, _, _, _, _) => CambioKeepsBien(inicial, s, accion);
    case RestablecerTodo(e, r) => RestoredCitas(inicial, s, e, r);
    case Mantener(op, e, r) =>
      if !op.Restablecer? && op.col != Citas {
        MaintainedStored(inicial, s, op, e, r);
      }
    case Salir =>
    case Confirmar(_, _) =>
    case _ =>
      if s.asistente.Some? {
        WizardStepKeeps(s.asistente.value, s.citas, accion);
      }
  }

  /** A restore shows and stores the initial appointments, even when the reload fails. */
  lemma RestoredCitas(inicial: Base, s: EstadoApp, e: Entorno, r: Entorno)
    ensures var t := TrasOp(inicial, s, Restablecer, e, r);
            e.escritura ==> t.citas == CitasDe(inicial, None) == CitasDe(inicial, t.blob)
  {}

  /** SAFETY. In every prudent run of wizard steps, clicks, bookings, cancellations, completions, restores and
      other maintenance, under any network outcomes and any failed writes, the shown appointments are the stored
      ones and no two active ones of one barber and day occupy the same block. */
  lemma {:induction false} SinDobleReserva(inicial: Base, s: EstadoApp, acciones: seq<Accion>)
    requires SinDobles(CitasDe(inicial, None)) && Bien(inicial, s) && CorridaPrudente(inicial, s, acciones)
    ensures Bien(inicial, Correr(inicial, s, acciones))
    ensures SinDobles(Correr(inicial, s, acciones).citas)
    decreases |acciones|
  {
    hide Ejecutar, Prudente, SinDobles;
    if acciones == [] {
      BienSinDobles(inicial, s);
    } else {
      EjecutarKeepsBien(inicial, s, acciones[0]);
      SinDobleReserva(inicial, Ejecutar(inicial, s, acciones[0]), acciones[1..]);
    }
  }

  lemma BienSinDobles(inicial: Base, s: EstadoApp)
    requires Bien(inicial, s)
    ensures SinDobles(s.citas)
  {}

  // ---------- every run, exactly when ----------

  /** Every chosen hour is one of the blocks. */
  ghost predicate ConBloques(s: EstadoApp) {
    && (s.asistente.Some? ==> EsBloque(s.asistente.value.hora))
    && (forall p :: p in s.pendientes ==> EsBloque(p.hora))
  }

  /** Neither the stored nor the shown appointments contain a double booking. */
  ghost predicate SinDoblesEn(inicial: Base, s: EstadoApp) {
    SinDobles(CitasDe(inicial, s.blob)) && SinDobles(s.citas)
  }

  /** A booking that is written finds its block free, and a revived appointment that is written finds its turn
      free, among the appointments that its operation loads. */
  ghost predicate Segura(inicial: Base, s: EstadoApp, accion: Accion) {
    match accion
    case Completar(i, _, _, e, _) =>
      i < |s.pendientes| && s.pendientes[i].fecha != FECHA_RECHAZADA && e.escritura ==>
        PedidoLibre(s.pendientes[i], Cargadas(inicial, s.blob, e))
    case CambiarEstadoCita(id, estado, _, e, _) =>
      var l := Cargadas(inicial, s.blob, e);
      e.escritura && Revive(l, id, estado) ==> TurnoLibre(l, l[Indice(l, id)].campos)
    case _ => true
  }

  ghost predicate CorridaSegura(inicial: Base, s: EstadoApp, acciones: seq<Accion>)
    decreases |acciones|
  {
    acciones == [] ||
    (Segura(inicial, s, acciones[0]) && CorridaSegura(inicial, Ejecutar(inicial, s, acciones[0]), acciones[1..]))
  }

  lemma WizardKeepsBlock(a: Asistente, citas: seq<Registro>, accion: Accion)
    requires EsBloque(a.hora)
    ensures EsBloque(EnAsistente(a, citas, accion).hora)
  {
    hide EsBloque, EsHoraOcupada, Decimal;
  }

  lemma PedidoHora(a: Asistente, precio: nat, cliente: int)
    ensures PedidoDe(a, precio, cliente).hora == a.hora
  {}

  lemma EjecutarKeepsBloques(inicial: Base, s: EstadoApp, accion: Accion)
    requires ConBloques(s)
    ensures ConBloques(Ejecutar(inicial, s, accion))
  {
    hide EsBloque, Siguiente, Sembrado, Cargadas, OpDePedido, EnAsistente, PedidoDe;
    match accion
    case Abrir(_, _, _, _, _, _, _) => OnceIsBlock();
    case Confirmar(precio, cliente) =>
      if s.asistente.Some? { PedidoHora(s.asistente.value, precio, cliente); }
    case Completar(_, _, _, _, _) =>
    case CambiarEstadoCita(_, _, _, _, _) =>
    case RestablecerTodo(_, _) =>
    case Mantener(_, _, _) =>
    case Salir =>
    case _ => if s.asistente.Some? { WizardKeepsBlock(s.asistente.value, s.citas, accion); }
  }

  /** What an operation loads is stored or initial, so it has no double bookings. */
  lemma LoadedSinDobles(inicial: Base, blob: Option<Base>, e: Entorno)
    requires SinDobles(CitasDe(inicial, None)) && SinDobles(CitasDe(inicial, blob))
    ensures SinDobles(Cargadas(inicial, blob, e))
  {
    hide SinDobles;
    SeedingStoresTheSame(inicial, blob, e);
  }

  lemma CompletarSafeExactlyWhen(inicial: Base, s: EstadoApp, accion: Accion)
    requires SinDobles(CitasDe(inicial, None)) && ConBloques(s) && SinDobles(CitasDe(inicial, s.blob))
    requires accion.Completar?
    ensures SinDobles(CitasDe(inicial, Ejecutar(inicial, s, accion).blob)) <==> Segura(inicial, s, accion)
  {
    hide SinDobles, PedidoLibre, Siguiente, Sembrado, CitasDe, Cargadas, OpDePedido, CitaNueva, EsBloque;
    if accion.i < |s.pendientes| {
      var p, l := s.pendientes[accion.i], Cargadas(inicial, s.blob, accion.e);
      assert p in s.pendientes;
      LoadedSinDobles(inicial, s.blob, accion.e);
      BookedStored(inicial, s.blob, p, accion.codigo, accion.red, accion.e);
      SeedingStoresTheSame(
        inicial, Siguiente(inicial, s.blob, OpDePedido(p, accion.codigo, accion.red), accion.e), accion.r);
      AgendarSafeExactlyWhenFree(l, p, accion.codigo);
    }
  }

  lemma CambioSafeExactlyWhen(inicial: Base, s: EstadoApp, accion: Accion)
    requires SinDobles(CitasDe(inicial, None)) && SinDobles(CitasDe(inicial, s.blob)) && accion.CambiarEstadoCita?
    ensures SinDobles(CitasDe(inicial, Ejecutar(inicial, s, accion).blob)) <==> Segura(inicial, s, accion)
  {
    hide SinDobles, Libre, Siguiente, Sembrado, CitasDe, Cargadas, TurnoLibre, Cancelada, ConNuevoEstado, OpLocal;
    var l, op := Cargadas(inicial, s.blob, accion.e), OpLocal(CambiarEstado(accion.id, accion.estado), accion.red);
    LoadedSinDobles(inicial, s.blob, accion.e);
    ChangedStored(inicial, s.blob, accion.id, accion.estado, accion.red, accion.e);
    SeedingStoresTheSame(inicial, Siguiente(inicial, s.blob, op, accion.e), accion.r);
    if Revive(l, accion.id, accion.estado) {
      ReviveSafeExactlyWhenFree(l, accion.id, accion.estado);
    } else {
      CambioMantieneLibre(l, accion.id, accion.estado);
    }
  }

  lemma ActionSafeExactlyWhen(inicial: Base, s: EstadoApp, accion: Accion)
    requires SinDobles(CitasDe(inicial, None)) && ConBloques(s) && SinDobles(CitasDe(inicial, s.blob))
    ensures SinDobles(CitasDe(inicial, Ejecutar(inicial, s, accion).blob)) <==> Segura(inicial, s, accion)
  {
    hide SinDobles, Siguiente, Sembrado, CitasDe, Cargadas, EsBloque, OpDePedido, EnAsistente, PedidoLibre, TurnoLibre;
    hide TrasOp, TrasMantener;
    match accion
    case Completar(_, _, _, _, _) => CompletarSafeExactlyWhen(inicial, s, accion);
    case CambiarEstadoCita(_, _, _, _, _) => CambioSafeExactlyWhen(inicial, s, accion);
    case RestablecerTodo(e, r) => RestoredCitas(inicial, s, e, r);
    case Mantener(op, e, r) =>
      if !op.Restablecer? && op.col != Citas {
        MaintainedStored(inicial, s, op, e, r);
      }
    case _ =>
  }

  /** The shown appointments are always earlier ones, the stored ones or the initial ones. */
  lemma ShownAfter(inicial: Base, s: EstadoApp, accion: Accion)
    ensures var t := Ejecutar(inicial, s, accion);
            t.citas == s.citas || t.citas == CitasDe(inicial, t.blob) || t.citas == CitasDe(inicial, None)
  {
    hide Siguiente, OpDePedido, EnAsistente, PedidoDe, Montado;
    if accion.Completar? && accion.i < |s.pendientes| {
      SeedingStoresTheSame(inicial, Siguiente(inicial, s.blob,
        OpDePedido(s.pendientes[accion.i], accion.codigo, accion.red), accion.e), accion.r);
    }
  }

  lemma PointSafeExactlyWhen(inicial: Base, s: EstadoApp, accion: Accion)
    requires SinDobles(CitasDe(inicial, None)) && ConBloques(s) && SinDoblesEn(inicial, s)
    ensures SinDoblesEn(inicial, Ejecutar(inicial, s, accion)) <==> Segura(inicial, s, accion)
  {
    hide SinDobles, Ejecutar, CitasDe, Segura, ConBloques;
    ActionSafeExactlyWhen(inicial, s, accion);
    ShownAfter(inicial, s, accion);
  }

  /** SAFETY, exactly when. From any start without double bookings, with any number of confirmations outstanding
      and with any failing reads and writes, a run stores and shows no double booking at any point if and only if
      every booking that is written finds its block free, and every revived appointment that is written its turn,
      among the appointments that its operation loads. */
  lemma {:induction false} SinDoblesExactlyWhenSegura(inicial: Base, s: EstadoApp, acciones: seq<Accion>)
    requires SinDobles(CitasDe(inicial, None)) && ConBloques(s) && SinDoblesEn(inicial, s)
    ensures (forall n :: 0 <= n <= |acciones| ==> SinDoblesEn(inicial, Correr(inicial, s, acciones[..n])))
            <==> CorridaSegura(inicial, s, acciones)
    decreases |acciones|
  {
    hide SinDobles, SinDoblesEn, ConBloques, Ejecutar, Segura, CitasDe;
    if acciones == [] {
      assert acciones[..0] == [];
    } else {
      var t, resto := Ejecutar(inicial, s, acciones[0]), acciones[1..];
      PointSafeExactlyWhen(inicial, s, acciones[0]);
      EjecutarKeepsBloques(inicial, s, acciones[0]);
      assert acciones[..0] == [];
      forall n | 1 <= n <= |acciones|
        ensures Correr(inicial, s, acciones[..n]) == Correr(inicial, t, resto[..n - 1])
      {
        assert acciones[..n][0] == acciones[0] && acciones[..n][1..] == resto[..n - 1];
      }
      assert resto[..0] == [];
      if Segura(inicial, s, acciones[0]) {
        SinDoblesExactlyWhenSegura(inicial, t, resto);
        if forall n :: 0 <= n <= |acciones| ==> SinDoblesEn(inicial, Correr(inicial, s, acciones[..n])) {
          forall m | 0 <= m <= |resto|
            ensures SinDoblesEn(inicial, Correr(inicial, t, resto[..m]))
          {
            assert Correr(inicial, s, acciones[..m + 1]) == Correr(inicial, t, resto[..m]);
          }
        }
      } else {
        assert Correr(inicial, s, acciones[..1]) == t;
      }
    }
  }

  /** A booking that cannot read the storage but can write it leaves the initial appointments and itself: every other
      booking is lost. */
  lemma BookingWithoutReadStartsOver(
    inicial: Base, s: EstadoApp, i: nat, codigo: string, red: Red, e: Entorno, r: Entorno)
    requires i < |s.pendientes| && s.pendientes[i].fecha != FECHA_RECHAZADA && !e.lectura && e.escritura
    ensures var l := CitasDe(inicial, None);
            CitasDe(inicial, Ejecutar(inicial, s, Completar(i, codigo, red, e, r)).blob)
            == l + [CitaNueva(l, s.pendientes[i], codigo)]
  {
    hide Siguiente, Sembrado, CitasDe, Cargadas, OpDePedido, CitaNueva;
    var p := s.pendientes[i];
    BookedStored(inicial, s.blob, p, codigo, red, e);
    SeedingStoresTheSame(inicial, s.blob, e);
    SeedingStoresTheSame(inicial, Siguiente(inicial, s.blob, OpDePedido(p, codigo, red), e), r);
  }

  // ---------- start states ----------

  /** The application after loading: no wizard, nothing outstanding. */
  function Inicio(inicial: Base, blob: Option<Base>): EstadoApp {
    EstadoApp(blob, CitasDe(inicial, blob), None, [])
  }

  /** The appointments of the initial data (frontend/src/data/dbSimulada.js), with the fields the model reads. */
  const CITAS_INICIALES: seq<Registro> := [
    Registro(1, map[CodigoReserva := Texto("CIT-1001"), BarberoId := Num(1), ClienteId := Num(1),
                    Fecha := Texto("2026-11-05"),
                    Hora := Texto("11:00"), Costo := Num(22000), DescuentoAplicado := Num(0), TotalFinal := Num(22000),
                    Estado := Texto("CONFIRMADA")]),
    Registro(2, map[CodigoReserva := Texto("CIT-1002"), BarberoId := Num(2), ClienteId := Num(2),
                    Fecha := Texto("2026-11-06"),
                    Hora := Texto("15:30"), Costo := Num(15000), DescuentoAplicado := Num(3000),
                    TotalFinal := Num(12000), Estado := Texto("PENDIENTE")])
  ]

  lemma CitasInicialesSinDobles()
    ensures SinDobles(CITAS_INICIALES)
  {
    var a, b := CITAS_INICIALES[0], CITAS_INICIALES[1];
    hide CadenaDe, EmpiezaCon, EsBloque;
    forall barbero, fecha, h
      ensures !(Ocupa(a, barbero, fecha, h) && Ocupa(b, barbero, fecha, h))
    {
      assert a.campos[Fecha].s[9] != b.campos[Fecha].s[9];
    }
  }

  lemma FirstOccupies(c: Registro, b: int, fecha: string, h: string)
    requires EsBloque(h) && Tiene(c.campos, BarberoId, Num(1)) && Tiene(c.campos, Fecha, Texto("2026-11-05"))
    requires Tiene(c.campos, Hora, Texto("11:00")) && !Cancelada(c.campos)
    ensures Ocupa(c, Decimal(b), fecha, h) <==> b == 1 && fecha == "2026-11-05" && h == "11:00"
  {
    SameBarber(c.campos, b);
    OnceIsBlock();
    if h <= "11:00" { BloquesHaveFiveLetters("11:00", h); }
    hide Decimal, CadenaDe, EsBloque, Cancelada;
  }

  /** An hour between the blocks occupies none. */
  lemma HalfPastOccupiesNone(c: Registro, barbero: string, fecha: string, h: string)
    requires EsBloque(h) && Tiene(c.campos, Hora, Texto("15:30"))
    ensures !Ocupa(c, barbero, fecha, h)
  {
    assert !(h <= "15:30") by { assert |h| == 5 && h[3] == '0'; }
    hide CadenaDe, EsBloque, Cancelada;
  }

  /** Of all blocks the initial appointments occupy only barber 1's at 11:00 on 2026-11-05; the one at 15:30 occupies
      none. */
  lemma InitialOccupancy(b: int, fecha: string, h: string)
    requires EsBloque(h)
    ensures EsHoraOcupada(CITAS_INICIALES, Decimal(b), fecha, h) <==> b == 1 && fecha == "2026-11-05" && h == "11:00"
  {
    hide Decimal, CadenaDe, EsBloque, Ocupa;
    var c, d := CITAS_INICIALES[0], CITAS_INICIALES[1];
    FirstOccupies(c, b, fecha, h);
    HalfPastOccupiesNone(d, Decimal(b), fecha, h);
    assert CITAS_INICIALES == [c, d];
  }

  /** Over the shipped initial data, every prudent run from a first start is safe. */
  lemma PrudentFromFirstStart(inicial: Base, acciones: seq<Accion>)
    requires Citas in inicial && inicial[Citas] == CITAS_INICIALES
    requires CorridaPrudente(inicial, Inicio(inicial, None), acciones)
    ensures SinDobles(Correr(inicial, Inicio(inicial, None), acciones).citas)
  {
    CitasInicialesSinDobles();
    hide CITAS_INICIALES, SinDobles;
    SinDobleReserva(inicial, Inicio(inicial, None), acciones);
  }

  // ---------- why the guard is there ----------

  lemma {:induction false} CorrerAppend(inicial: Base, s: EstadoApp, p: seq<Accion>, q: seq<Accion>)
    ensures Correr(inicial, s, p + q) == Correr(inicial, Correr(inicial, s, p), q)
    decreases |p|
  {
    hide Ejecutar;
    if p == [] {
      assert p + q == q;
    } else {
      assert (p + q)[0] == p[0] && (p + q)[1..] == p[1..] + q;
      CorrerAppend(inicial, Ejecutar(inicial, s, p[0]), p[1..], q);
    }
  }

  lemma CorrerDos(inicial: Base, s: EstadoApp, a: Accion, b: Accion)
    ensures Correr(inicial, s, [a, b]) == Ejecutar(inicial, Ejecutar(inicial, s, a), b)
  {
    hide Ejecutar;
    assert [a, b][1..] == [b] && [b][1..] == [];
    var t := Ejecutar(inicial, s, a);
    assert Correr(inicial, s, [a, b]) == Correr(inicial, t, [b]) == Correr(inicial, Ejecutar(inicial, t, b), []);
  }

  /** Booking an outstanding confirmation. */
  function Reservar(codigo: string, red: Red): Accion { Completar(0, codigo, red, FIABLE, FIABLE) }

  const FIABLE := Entorno(true, true, true)

  lemma ReservarCitas(inicial: Base, s: EstadoApp, codigo: string, red: Red)
    requires s.pendientes != [] && s.pendientes[0].fecha != FECHA_RECHAZADA && s.citas == CitasDe(inicial, s.blob)
    ensures var t := Ejecutar(inicial, s, Reservar(codigo, red));
            t.citas == s.citas + [CitaNueva(s.citas, s.pendientes[0], codigo)] &&
            t.citas == CitasDe(inicial, t.blob) && t.pendientes == s.pendientes[1..]
  {
    hide Siguiente, OpDePedido, CitaNueva;
    var t := s.(pendientes := s.pendientes[1..], asistente := None);
    assert s.pendientes[..0] + s.pendientes[0 + 1..] == s.pendientes[1..];
    BookedCitas(inicial, t, s.pendientes[0], codigo, red, FIABLE, FIABLE);
  }

  lemma NuevaNoLibre(citas: seq<Registro>, p: Pedido, codigo: string)
    requires EsBloque(p.hora)
    ensures !PedidoLibre(p, citas + [CitaNueva(citas, p, codigo)])
  {
    hide Ocupa, EsBloque, Decimal, CitaNueva;
    var t := citas + [CitaNueva(citas, p, codigo)];
    NuevaOcupa(citas, p, codigo, Decimal(p.barberoId), p.fecha, p.hora);
    assert t[|citas|] == CitaNueva(citas, p, codigo);
  }

  /** Two clicks before the first booking is done double-book the block, from every good state at step 5. */
  lemma DoubleClickDoubleBooks(
    inicial: Base, s: EstadoApp, precio: nat, cliente: int, k1: string, k2: string, r1: Red, r2: Red)
    requires Bien(inicial, s) && s.pendientes == []
    requires s.asistente.Some? && s.asistente.value.paso == 5 && s.asistente.value.fecha != FECHA_RECHAZADA
    ensures var clicks := Correr(inicial, s, [Confirmar(precio, cliente), Confirmar(precio, cliente)]);
            !SinDobles(Correr(inicial, clicks, [Reservar(k1, r1), Reservar(k2, r2)]).citas)
  {
    hide SinDobles, CitaNueva, PedidoDe, EsBloque, Siguiente, EsHoraOcupada;
    var p := PedidoDe(s.asistente.value, precio, cliente);
    PedidoKeepsChoice(s.asistente.value, precio, cliente);
    CorrerDos(inicial, s, Confirmar(precio, cliente), Confirmar(precio, cliente));
    var c := s.(pendientes := [p, p]);
    assert Correr(inicial, s, [Confirmar(precio, cliente), Confirmar(precio, cliente)]) == c;
    CorrerDos(inicial, c, Reservar(k1, r1), Reservar(k2, r2));
    ReservarCitas(inicial, c, k1, r1);
    var d := Ejecutar(inicial, c, Reservar(k1, r1));
    ReservarCitas(inicial, d, k2, r2);
    AgendarSafeExactlyWhenFree(s.citas, p, k1);
    NuevaNoLibre(s.citas, p, k1);
    AgendarSafeExactlyWhenFree(d.citas, p, k2);
  }


  /** Restoring the data while a confirmation is outstanding is safe exactly when the initial data leave its block
      free. */
  lemma RestoreWhilePendingSafeExactlyWhen(inicial: Base, s: EstadoApp, codigo: string, red: Red)
    requires SinDobles(CitasDe(inicial, None)) && Bien(inicial, s) && s.asistente.None?
    requires s.pendientes != [] && s.pendientes[0].fecha != FECHA_RECHAZADA
    ensures SinDobles(Correr(inicial, s, [RestablecerTodo(FIABLE, FIABLE), Reservar(codigo, red)]).citas)
            <==> PedidoLibre(s.pendientes[0], CitasDe(inicial, None))
  {
    hide SinDobles, CitaNueva, EsBloque, PedidoLibre;
    BlockOf(s.pendientes[0], s.citas);
    CorrerDos(inicial, s, RestablecerTodo(FIABLE, FIABLE), Reservar(codigo, red));
    RestoredCitas(inicial, s, FIABLE, FIABLE);
    var t := Ejecutar(inicial, s, RestablecerTodo(FIABLE, FIABLE));
    assert t.citas == CitasDe(inicial, None) == CitasDe(inicial, t.blob) && t.pendientes == s.pendientes;
    ReservarCitas(inicial, t, codigo, red);
    AgendarSafeExactlyWhenFree(t.citas, s.pendientes[0], codigo);
  }

  // ---------- the network ----------

  /** The same action with the network outcome left out. */
  function SinRed(accion: Accion): Accion {
    match accion
    case Completar(i, codigo, _, e, r) => Completar(i, codigo, Lanza, e, r)
    case CambiarEstadoCita(id, estado, _, e, r) => CambiarEstadoCita(id, estado, Lanza, e, r)
    case _ => accion
  }

  lemma ActionIgnoresNetwork(inicial: Base, s: EstadoApp, accion: Accion)
    ensures Ejecutar(inicial, s, accion) == Ejecutar(inicial, s, SinRed(accion))
  {
    hide MaxId, SinId, CamposDe, EnAsistente;
    if accion.Completar? && accion.i < |s.pendientes| {
      BookingIgnoresNetwork(inicial, s.blob, s.pendientes[accion.i], accion.codigo, accion.red, accion.e);
    }
  }

  /** The id that the server answers with is dropped. */
  lemma BookingIgnoresNetwork(inicial: Base, blob: Option<Base>, p: Pedido, codigo: string, red: Red, e: Entorno)
    ensures Siguiente(inicial, blob, OpDePedido(p, codigo, red), e)
            == Siguiente(inicial, blob, OpDePedido(p, codigo, Lanza), e)
  {
    var db := Cargada(inicial, blob, e.lectura);
    assert Creado(Lista(db, Citas), OpDePedido(p, codigo, red).item)
           == Creado(Lista(db, Citas), OpDePedido(p, codigo, Lanza).item);
  }

  /** Two runs of the application that differ only in what the network answers to bookings and status changes end in the
      same state: the same storage, appointments, wizard and outstanding confirmations. */
  lemma {:induction false} RunsIgnoreNetwork(inicial: Base, s: EstadoApp, p: seq<Accion>, q: seq<Accion>)
    requires |p| == |q| && forall i :: 0 <= i < |p| ==> SinRed(p[i]) == SinRed(q[i])
    ensures Correr(inicial, s, p) == Correr(inicial, s, q)
    decreases |p|
  {
    hide Ejecutar, SinRed;
    if p != [] {
      ActionIgnoresNetwork(inicial, s, p[0]);
      ActionIgnoresNetwork(inicial, s, q[0]);
      forall i | 0 <= i < |p[1..]|
        ensures SinRed(p[1..][i]) == SinRed(q[1..][i])
      {
        assert p[1..][i] == p[i + 1] && q[1..][i] == q[i + 1];
      }
      RunsIgnoreNetwork(inicial, Ejecutar(inicial, s, p[0]), p[1..], q[1..]);
    }
  }
}
