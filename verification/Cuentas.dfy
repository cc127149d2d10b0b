/** The money of the appointments: prices that fit together, and the projected revenue of
    frontend/src/pages/AdminDashboardPage.jsx as a ledger over runs. */
module Cuentas {
  import opened Basics
  import opened Registros
  import opened DbSimulada
  import opened ApiCliente
  import opened Precios
  import opened Reserva

  // ---------- price = discount + total ----------

  ghost predicate MontosBien(costo: int, descuento: int, total: int) {
    costo == descuento + total && 0 <= total <= costo
  }

  /** The record carries a price, a discount and a total that fit together. */
  ghost predicate Cuadra(campos: Campos) {
    exists costo, descuento, total :: MontosBien(costo, descuento, total) &&
      Tiene(campos, Costo, Num(costo)) && Tiene(campos, DescuentoAplicado, Num(descuento)) &&
      Tiene(campos, TotalFinal, Num(total))
  }

  ghost predicate TodasCuadran(citas: seq<Registro>) {
    forall i :: 0 <= i < |citas| ==> Cuadra(citas[i].campos)
  }

  ghost predicate CuentasBien(inicial: Base, s: EstadoApp) {
    && TodasCuadran(CitasDe(inicial, s.blob))
    && TodasCuadran(s.citas)
    && EnCurso(s)
  }

  /** The amounts of the outstanding confirmations fit, and the wizard's percentage is in range. */
  ghost predicate EnCurso(s: EstadoApp) {
    && (forall p :: p in s.pendientes ==> MontosBien(p.costo, p.descuento, p.total))
    && (s.asistente.Some? ==> 0 <= s.asistente.value.descuento <= 100)
  }

  /** The promotions that the action reads have percentages in 0..100. */
  ghost predicate PromosBien(accion: Accion) {
    match accion
    case Abrir(_, _, _, _, _, _, promos) => PromosEnRango(promos)
    case AplicarCupon(promos) => PromosEnRango(promos)
    case _ => true
  }

  lemma NuevaCuadra(citas: seq<Registro>, p: Pedido, codigo: string)
    requires MontosBien(p.costo, p.descuento, p.total)
    ensures Cuadra(CitaNueva(citas, p, codigo).campos)
  {
    var campos := CitaNueva(citas, p, codigo).campos;
    assert Tiene(campos, Costo, Num(p.costo)) && Tiene(campos, DescuentoAplicado, Num(p.descuento)) &&
           Tiene(campos, TotalFinal, Num(p.total));
  }

  lemma CambioCuadra(c: Registro, estado: string)
    requires Cuadra(c.campos)
    ensures Cuadra(Cambiado(c, ConEstado(estado)).campos)
  {
    var costo, descuento, total :| MontosBien(costo, descuento, total) &&
      Tiene(c.campos, Costo, Num(costo)) && Tiene(c.campos, DescuentoAplicado, Num(descuento)) &&
      Tiene(c.campos, TotalFinal, Num(total));
    var campos := Cambiado(c, ConEstado(estado)).campos;
    assert Tiene(campos, Costo, Num(costo)) && Tiene(campos, DescuentoAplicado, Num(descuento)) &&
           Tiene(campos, TotalFinal, Num(total));
  }

  lemma PedidoCuadra(a: Asistente, precio: nat, cliente: int)
    requires 0 <= a.descuento <= 100
    ensures var p := PedidoDe(a, precio, cliente); MontosBien(p.costo, p.descuento, p.total)
  {
    hide MontoDescuento;
    DescuentoAcotado(precio, a.descuento);
  }

  lemma LoadedCuadran(inicial: Base, blob: Option<Base>, e: Entorno)
    requires TodasCuadran(CitasDe(inicial, None)) && TodasCuadran(CitasDe(inicial, blob))
    ensures TodasCuadran(Cargadas(inicial, blob, e))
  {
    hide TodasCuadran;
    SeedingStoresTheSame(inicial, blob, e);
  }

  lemma CompletarKeepsCuentas(inicial: Base, s: EstadoApp, accion: Accion)
    requires TodasCuadran(CitasDe(inicial, None)) && CuentasBien(inicial, s) && accion.Completar?
    ensures TodasCuadran(CitasDe(inicial, Ejecutar(inicial, s, accion).blob))
  {
    hide Cuadra, MontosBien, Siguiente, Sembrado, CitasDe, Cargadas, OpDePedido, CitaNueva;
    if accion.i < |s.pendientes| {
      var p := s.pendientes[accion.i];
      assert p in s.pendientes;
      LoadedCuadran(inicial, s.blob, accion.e);
      BookedStored(inicial, s.blob, p, accion.codigo, accion.red, accion.e);
      SeedingStoresTheSame(
        inicial, Siguiente(inicial, s.blob, OpDePedido(p, accion.codigo, accion.red), accion.e), accion.r);
      NuevaCuadra(Cargadas(inicial, s.blob, accion.e), p, accion.codigo);
    }
  }

  lemma CambioKeepsCuentas(inicial: Base, s: EstadoApp, accion: Accion)
    requires TodasCuadran(CitasDe(inicial, None)) && CuentasBien(inicial, s) && accion.CambiarEstadoCita?
    ensures TodasCuadran(CitasDe(inicial, Ejecutar(inicial, s, accion).blob))
  {
    hide Cuadra, MontosBien, Siguiente, Sembrado, CitasDe, Cargadas, OpLocal;
    var l, op := Cargadas(inicial, s.blob, accion.e), OpLocal(CambiarEstado(accion.id, accion.estado), accion.red);
    LoadedCuadran(inicial, s.blob, accion.e);
    ChangedStored(inicial, s.blob, accion.id, accion.estado, accion.red, accion.e);
    SeedingStoresTheSame(inicial, Siguiente(inicial, s.blob, op, accion.e), accion.r);
    var i := Indice(l, accion.id);
    if i != -1 {
      CambioCuadra(l[i], accion.estado);
    }
  }

  /** The stored appointments keep fitting. */
  lemma EjecutarKeepsStored(inicial: Base, s: EstadoApp, accion: Accion)
    requires TodasCuadran(CitasDe(inicial, None)) && CuentasBien(inicial, s)
    ensures TodasCuadran(CitasDe(inicial, Ejecutar(inicial, s, accion).blob))
  {
    hide TodasCuadran, CitasDe, Siguiente, Sembrado, Cargadas, OpDePedido, EnAsistente, PedidoDe, TrasOp, TrasMantener;
    match accion
    case Completar(_, _, _, _, _) => CompletarKeepsCuentas(inicial, s, accion);
    case CambiarEstadoCita(_, _, _, _, _) => CambioKeepsCuentas(inicial, s, accion);
    case RestablecerTodo(e, r) => RestoredCitas(inicial, s, e, r);
    case Mantener(op, e, r) =>
      if !op.Restablecer? && op.col != Citas { MaintainedStored(inicial, s, op, e, r); }
    case _ =>
  }

  lemma EjecutarKeepsEnCurso(inicial: Base, s: EstadoApp, accion: Accion)
    requires EnCurso(s) && PromosBien(accion)
    ensures EnCurso(Ejecutar(inicial, s, accion))
  {
    hide MontosBien, Siguiente, Sembrado, Cargadas, OpDePedido, EsHoraOcupada, DescuentoDeCupon, PromosEnRango;
    hide PedidoDe, PuedeAvanzar;
    match accion
    case Abrir(_, _, _, _, _, codigo, promos) => CuponEnRango(promos, codigo);
    case AplicarCupon(promos) =>
      if s.asistente.Some? { CuponEnRango(promos, s.asistente.value.codigoPromo); }
    case Confirmar(precio, cliente) =>
      if s.asistente.Some? { PedidoCuadra(s.asistente.value, precio, cliente); }
    case _ =>
  }

  lemma EjecutarKeepsCuentas(inicial: Base, s: EstadoApp, accion: Accion)
    requires TodasCuadran(CitasDe(inicial, None)) && CuentasBien(inicial, s) && PromosBien(accion)
    ensures CuentasBien(inicial, Ejecutar(inicial, s, accion))
  {
    hide TodasCuadran, EnCurso, PromosBien, CitasDe, Ejecutar;
    EjecutarKeepsStored(inicial, s, accion);
    ShownAfter(inicial, s, accion);
    EjecutarKeepsEnCurso(inicial, s, accion);
  }

  /** ACCOUNTS. In every run, prudent or not, in which the promotions have percentages in 0..100, every stored and every
      shown appointment has price = discount + total with 0 <= total <= price. */
  lemma {:induction false} CuentasSiempreCuadran(inicial: Base, s: EstadoApp, acciones: seq<Accion>)
    requires TodasCuadran(CitasDe(inicial, None)) && CuentasBien(inicial, s)
    requires forall i :: 0 <= i < |acciones| ==> PromosBien(acciones[i])
    ensures CuentasBien(inicial, Correr(inicial, s, acciones))
    decreases |acciones|
  {
    hide Ejecutar, PromosBien, TodasCuadran, CuentasBien;
    if acciones != [] {
      EjecutarKeepsCuentas(inicial, s, acciones[0]);
      forall i | 0 <= i < |acciones[1..]|
        ensures PromosBien(acciones[1..][i])
      {
        assert acciones[1..][i] == acciones[i + 1];
      }
      CuentasSiempreCuadran(inicial, Ejecutar(inicial, s, acciones[0]), acciones[1..]);
    }
  }

  /** The shipped initial appointments fit too. */
  lemma CitasInicialesCuadran()
    ensures TodasCuadran(CITAS_INICIALES)
  {
    var a, b := CITAS_INICIALES[0].campos, CITAS_INICIALES[1].campos;
    assert MontosBien(22000, 0, 22000);
    assert Tiene(a, Costo, Num(22000)) && Tiene(a, DescuentoAplicado, Num(0)) && Tiene(a, TotalFinal, Num(22000));
    assert MontosBien(15000, 3000, 12000);
    assert Tiene(b, Costo, Num(15000)) && Tiene(b, DescuentoAplicado, Num(3000)) && Tiene(b, TotalFinal, Num(12000));
  }

  // ---------- projected revenue ----------

  function NumDe(campos: Campos, campo: Campo): int {
    if campo in campos && campos[campo].Num? then campos[campo].n else 0
  }

  /** `totalFinal || costo || 0`: a total of 0 falls through to the price. */
  function ValorDe(c: Registro): int {
    if NumDe(c.campos, TotalFinal) != 0 then NumDe(c.campos, TotalFinal) else NumDe(c.campos, Costo)
  }

  /** The value of a record: its total when that is a number other than 0, else its price when that is a number,
      else 0. */
  lemma ValueOfRecord(c: Registro)
    ensures forall t :: Tiene(c.campos, TotalFinal, Num(t)) && t != 0 ==> ValorDe(c) == t
    ensures (forall t :: Tiene(c.campos, TotalFinal, Num(t)) ==> t == 0) ==>
              (forall p :: Tiene(c.campos, Costo, Num(p)) ==> ValorDe(c) == p) &&
              ((forall p :: !Tiene(c.campos, Costo, Num(p))) ==> ValorDe(c) == 0)
  {
    if TotalFinal in c.campos && c.campos[TotalFinal].Num? {
      assert Tiene(c.campos, TotalFinal, Num(c.campos[TotalFinal].n));
    }
    if Costo in c.campos && c.campos[Costo].Num? {
      assert Tiene(c.campos, Costo, Num(c.campos[Costo].n));
    }
  }

  /** What one record adds to the projected revenue. */
  function Aporte(c: Registro): int { if Cancelada(c.campos) then 0 else ValorDe(c) }

  /** ingresosProyectados: the fold over the appointments that are not cancelled. */
  function Ingresos(citas: seq<Registro>): int {
    if citas == [] then 0 else Ingresos(citas[..|citas| - 1]) + Aporte(citas[|citas| - 1])
  }

  /** The value of everything booked, and of what is cancelled now. */
  function Total(citas: seq<Registro>): int {
    if citas == [] then 0 else Total(citas[..|citas| - 1]) + ValorDe(citas[|citas| - 1])
  }

  function Perdido(citas: seq<Registro>): int {
    if citas == [] then 0
    else Perdido(citas[..|citas| - 1]) + if Cancelada(citas[|citas| - 1].campos) then ValorDe(citas[|citas| - 1]) else 0
  }

  lemma {:induction false} IngresosMasPerdido(citas: seq<Registro>)
    ensures Ingresos(citas) + Perdido(citas) == Total(citas)
  {
    if citas != [] {
      IngresosMasPerdido(citas[..|citas| - 1]);
    }
  }

  lemma SumasSnoc(citas: seq<Registro>, c: Registro)
    ensures Ingresos(citas + [c]) == Ingresos(citas) + Aporte(c)
    ensures Total(citas + [c]) == Total(citas) + ValorDe(c)
  {
    assert (citas + [c])[..|citas + [c]| - 1] == citas;
  }

  lemma {:induction false} SumasUpdate(citas: seq<Registro>, i: nat, c: Registro)
    requires i < |citas|
    ensures Ingresos(citas[i := c]) == Ingresos(citas) - Aporte(citas[i]) + Aporte(c)
    ensures Total(citas[i := c]) == Total(citas) - ValorDe(citas[i]) + ValorDe(c)
  {
    hide Aporte, ValorDe;
    var n := |citas| - 1;
    var t := citas[i := c];
    if i == n {
      assert t[..n] == citas[..n];
    } else {
      assert t[..n] == citas[..n][i := c];
      SumasUpdate(citas[..n], i, c);
    }
  }

  lemma EstadoKeepsValor(c: Registro, estado: string)
    ensures ValorDe(Cambiado(c, ConEstado(estado))) == ValorDe(c)
    ensures Cancelada(Cambiado(c, ConEstado(estado)).campos) <==> estado == "CANCELADA"
  {}

  /** How a status change moves the revenue: cancelling an active record takes its value away, reviving a cancelled one
      brings it back, everything else changes nothing. */
  function Movimiento(citas: seq<Registro>, id: int, estado: string): int {
    var i := Indice(citas, id);
    if i == -1 then 0
    else if estado == "CANCELADA" && !Cancelada(citas[i].campos) then -ValorDe(citas[i])
    else if estado != "CANCELADA" && Cancelada(citas[i].campos) then ValorDe(citas[i])
    else 0
  }

  lemma CambioMueve(citas: seq<Registro>, id: int, estado: string)
    ensures Ingresos(ConNuevoEstado(citas, id, estado)) == Ingresos(citas) + Movimiento(citas, id, estado)
    ensures Total(ConNuevoEstado(citas, id, estado)) == Total(citas)
  {
    hide Ingresos, Total, ValorDe, Cancelada;
    var i := Indice(citas, id);
    if i != -1 {
      EstadoKeepsValor(citas[i], estado);
      SumasUpdate(citas, i, Cambiado(citas[i], ConEstado(estado)));
    }
  }

  /** Only the first cancellation counts. */
  lemma SecondCancellationChangesNothing(citas: seq<Registro>, id: int)
    ensures var once := ConNuevoEstado(citas, id, "CANCELADA");
            Ingresos(ConNuevoEstado(once, id, "CANCELADA")) == Ingresos(once) &&
            Ingresos(once) == Ingresos(citas) + Movimiento(citas, id, "CANCELADA")
  {
    hide Ingresos, Total;
    var once := ConNuevoEstado(citas, id, "CANCELADA");
    CambioMueve(citas, id, "CANCELADA");
    CambioMueve(once, id, "CANCELADA");
    ActualizarKeepsIds(citas, id, ConEstado("CANCELADA"));
    SameIdsSameIndex(citas, once, id);
  }

  /** The amount booked in what an operation loads: a failed read starts over with the initial bookings. */
  function Partida(inicial: Base, e: Entorno, booked: int): int {
    if e.lectura then booked else Total(CitasDe(inicial, None))
  }

  /** What one action makes of the amount booked so far; restoring the data, like a write after a failed read, starts
      over with the initial bookings. */
  function Registrado(inicial: Base, s: EstadoApp, accion: Accion, booked: int): int {
    match accion
    case Completar(i, codigo, _, e, _) =>
      if i < |s.pendientes| && s.pendientes[i].fecha != FECHA_RECHAZADA && e.escritura
      then Partida(inicial, e, booked) + ValorDe(CitaNueva(Cargadas(inicial, s.blob, e), s.pendientes[i], codigo))
      else booked
    case CambiarEstadoCita(id, _, _, e, _) =>
      if e.escritura && Indice(Cargadas(inicial, s.blob, e), id) != -1 then Partida(inicial, e, booked) else booked
    case RestablecerTodo(e, _) => if s.asistente.None? && e.escritura then Total(CitasDe(inicial, None)) else booked
    case Mantener(op, e, _) =>
      if !op.Restablecer? && op.col != Citas && e.escritura && !e.lectura && Escribe(inicial, op)
      then Total(CitasDe(inicial, None)) else booked
    case _ => booked
  }

  function RegistradoTras(inicial: Base, s: EstadoApp, acciones: seq<Accion>, booked: int): int
    decreases |acciones|
  {
    if acciones == [] then booked
    else
      RegistradoTras(inicial, Ejecutar(inicial, s, acciones[0]), acciones[1..],
                     Registrado(inicial, s, acciones[0], booked))
  }

  lemma LoadedTotal(inicial: Base, blob: Option<Base>, e: Entorno)
    ensures Total(Cargadas(inicial, blob, e)) == Partida(inicial, e, Total(CitasDe(inicial, blob)))
  {
    hide Total;
    SeedingStoresTheSame(inicial, blob, e);
  }

  lemma CompletarRegistra(inicial: Base, s: EstadoApp, accion: Accion)
    requires accion.Completar?
    ensures Total(CitasDe(inicial, Ejecutar(inicial, s, accion).blob))
            == Registrado(inicial, s, accion, Total(CitasDe(inicial, s.blob)))
  {
    hide Siguiente, Sembrado, OpDePedido, CitaNueva, Total, ValorDe, CitasDe, Cargadas, Partida;
    if accion.i < |s.pendientes| {
      var p, l := s.pendientes[accion.i], Cargadas(inicial, s.blob, accion.e);
      LoadedTotal(inicial, s.blob, accion.e);
      BookedStored(inicial, s.blob, p, accion.codigo, accion.red, accion.e);
      SeedingStoresTheSame(
        inicial, Siguiente(inicial, s.blob, OpDePedido(p, accion.codigo, accion.red), accion.e), accion.r);
      SumasSnoc(l, CitaNueva(l, p, accion.codigo));
    }
  }

  lemma CambioRegistra(inicial: Base, s: EstadoApp, accion: Accion)
    requires accion.CambiarEstadoCita?
    ensures Total(CitasDe(inicial, Ejecutar(inicial, s, accion).blob))
            == Registrado(inicial, s, accion, Total(CitasDe(inicial, s.blob)))
  {
    hide Siguiente, Sembrado, Total, ConNuevoEstado, CitasDe, Cargadas, Partida, OpLocal;
    var l, op := Cargadas(inicial, s.blob, accion.e), OpLocal(CambiarEstado(accion.id, accion.estado), accion.red);
    LoadedTotal(inicial, s.blob, accion.e);
    ChangedStored(inicial, s.blob, accion.id, accion.estado, accion.red, accion.e);
    SeedingStoresTheSame(inicial, Siguiente(inicial, s.blob, op, accion.e), accion.r);
    CambioMueve(l, accion.id, accion.estado);
  }

  lemma EjecutarRegistra(inicial: Base, s: EstadoApp, accion: Accion)
    ensures Total(CitasDe(inicial, Ejecutar(inicial, s, accion).blob))
            == Registrado(inicial, s, accion, Total(CitasDe(inicial, s.blob)))
  {
    hide Siguiente, Sembrado, Total, ValorDe, EnAsistente, PedidoDe, CitasDe, Cargadas, CitaNueva, TrasOp, TrasMantener;
    match accion
    case Completar(_, _, _, _, _) => CompletarRegistra(inicial, s, accion);
    case CambiarEstadoCita(_, _, _, _, _) => CambioRegistra(inicial, s, accion);
    case RestablecerTodo(e, r) => RestoredCitas(inicial, s, e, r);
    case Mantener(op, e, r) =>
      if !op.Restablecer? && op.col != Citas { MaintainedStored(inicial, s, op, e, r); }
    case _ =>
  }

  lemma {:induction false} RunRegistra(inicial: Base, s: EstadoApp, acciones: seq<Accion>)
    ensures Total(CitasDe(inicial, Correr(inicial, s, acciones).blob))
            == RegistradoTras(inicial, s, acciones, Total(CitasDe(inicial, s.blob)))
    decreases |acciones|
  {
    hide Ejecutar, Registrado, Total, CitasDe;
    if acciones != [] {
      EjecutarRegistra(inicial, s, acciones[0]);
      RunRegistra(inicial, Ejecutar(inicial, s, acciones[0]), acciones[1..]);
    }
  }

  /** LEDGER. Over every run, with any cancellations, revivals, network outcomes, failed reads and lost writes, the
      revenue projected from the stored appointments is the value booked so far minus the value of the records that are
      cancelled now; the one that is shown is the same whenever the shown appointments are the stored ones. */
  lemma LibroCuadra(inicial: Base, s: EstadoApp, acciones: seq<Accion>)
    ensures var t := Correr(inicial, s, acciones);
            var stored := CitasDe(inicial, t.blob);
            var booked := RegistradoTras(inicial, s, acciones, Total(CitasDe(inicial, s.blob)));
            Ingresos(stored) == booked - Perdido(stored) &&
            (t.citas == stored ==> Ingresos(t.citas) == booked - Perdido(t.citas))
  {
    hide Ingresos, Total, Perdido, Correr, RegistradoTras, CitasDe;
    RunRegistra(inicial, s, acciones);
    IngresosMasPerdido(CitasDe(inicial, Correr(inicial, s, acciones).blob));
  }

  /** A booking counts with its total exactly when the total is not 0 or the price is 0: a fully discounted appointment
      is projected at its full price. */
  lemma BookedValueIsTotalExactlyWhen(citas: seq<Registro>, a: Asistente, precio: nat, cliente: int, codigo: string)
    requires 0 <= a.descuento <= 100
    ensures var v := ValorDe(CitaNueva(citas, PedidoDe(a, precio, cliente), codigo));
            (v == TotalPagar(precio, a.descuento) <==> TotalPagar(precio, a.descuento) != 0 || precio == 0) &&
            (a.descuento == 100 ==> v == precio)
  {
    hide MontoDescuento;
    DescuentoAcotado(precio, a.descuento);
    var campos := CitaNueva(citas, PedidoDe(a, precio, cliente), codigo).campos;
    assert NumDe(campos, TotalFinal) == TotalPagar(precio, a.descuento) && NumDe(campos, Costo) == precio;
  }
}
