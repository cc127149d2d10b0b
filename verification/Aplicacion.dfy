/** The stateful components: the booking page (frontend/src/pages/BookingPage.jsx) and the application's handlers
    (frontend/src/App.jsx). Each method performs one action of the state machine in module Reserva. */
module Aplicacion {
  import opened Basics
  import opened Registros
  import opened DbSimulada
  import opened ApiCliente
  import opened Precios
  import opened Reserva

  class BookingPage {
    var paso: int
    var servicioId: int
    var sucursalId: int
    var barberoId: int
    var fecha: string
    var hora: string
    var nombres: string
    var correo: string
    var telefono: string
    var codigoPromo: string
    var descuentoPorcentaje: int

    function Valor(): Asistente
      reads this
    {
      Asistente(paso, servicioId, sucursalId, barberoId, fecha, hora, nombres, correo, telefono, codigoPromo,
                descuentoPorcentaje)
    }

    constructor (servicioId: int, sucursalId: int, barberoId: int, hoy: string, usuario: Option<Usuario>,
                 codigo: string, promos: seq<Promo>)
      ensures Valor() == Montado(servicioId, sucursalId, barberoId, hoy, usuario, codigo, promos)
    {
      paso := 1;
      this.servicioId, this.sucursalId, this.barberoId := servicioId, sucursalId, barberoId;
      fecha, hora := hoy, "11:00";
      nombres, correo, telefono := "", "", PREFIJO_TELEFONO;
      codigoPromo, descuentoPorcentaje := codigo, 0;
      new;
      if usuario.Some? {
        RellenarContacto(usuario.value);
      }
      if codigo != "" {
        ValidarCupon(promos);
      }
    }

    /** Fills the contact fields that nobody has typed into, at mounting and when a user logs in. */
    method RellenarContacto(usuario: Usuario)
      modifies this
      ensures Valor() == EnAsistente(old(Valor()), [], IniciarSesion(usuario))
    {
      if nombres == "" {
        nombres := O(usuario.nombres, usuario.nombre);
      }
      if correo == "" {
        correo := usuario.correo;
      }
      if telefono == "" || telefono == PREFIJO_TELEFONO {
        telefono := O(usuario.telefono, PREFIJO_TELEFONO);
      }
    }

    /** Looks for the first active promotion under the typed code. */
    method ValidarCupon(promos: seq<Promo>)
      modifies this
      ensures Valor() == old(Valor()).(descuento := DescuentoDeCupon(promos, old(codigoPromo)))
    {
      descuentoPorcentaje := 0;
      for i := 0 to |promos|
        invariant Valor() == old(Valor()).(descuento := 0)
        invariant forall j :: 0 <= j < i ==> !Vale(promos[j], codigoPromo)
      {
        if Vale(promos[i], codigoPromo) {
          descuentoPorcentaje := promos[i].descuentoPorcentaje;
          PrimerCuponDecide(promos, codigoPromo, i);
          return;
        }
      }
      PrimerCuponDecide(promos, codigoPromo, |promos|);
    }

    method AvanzarPaso(citasExistentes: seq<Registro>, correoValido: bool)
      requires paso < 5
      modifies this
      ensures Valor() == EnAsistente(old(Valor()), citasExistentes, Avanzar(correoValido))
      ensures old(paso) == 4 ==>
                (paso == 5 <==> !EnBlanco(nombres) && !EnBlanco(correo) && !EnBlanco(telefono) && correoValido)
      ensures old(paso) == 3 && ConNumeros(citasExistentes) ==>
                (paso == 4 <==> fecha != "" && hora != "" &&
                                !exists c :: c in citasExistentes && Toma(c, barberoId, fecha, hora))
    {
      if ConNumeros(citasExistentes) {
        OccupiedExactlyWhen(citasExistentes, barberoId, fecha, hora);
      }
      TrimBlank(nombres);
      TrimBlank(correo);
      TrimBlank(telefono);
      hide EsHoraOcupada, Trim, EnBlanco, Toma, ConNumeros;
      if paso == 1 && servicioId == 0 {
        return;
      }
      if paso == 2 && (sucursalId == 0 || barberoId == 0) {
        return;
      }
      if paso == 3 {
        if fecha == "" || hora == "" {
          return;
        }
        if EsHoraOcupada(citasExistentes, Decimal(barberoId), fecha, hora) {
          return;
        }
      }
      if paso == 4 {
        if Trim(nombres) == "" || Trim(correo) == "" || Trim(telefono) == "" {
          return;
        }
        if !correoValido {
          return;
        }
      }
      paso := paso + 1;
    }

    method RetrocederPaso()
      requires paso > 1
      modifies this
      ensures Valor() == EnAsistente(old(Valor()), [], Retroceder)
    {
      paso := paso - 1;
    }

    /** A button of an hour block; it is disabled while the block is occupied. */
    method ElegirHora(citasExistentes: seq<Registro>, bloque: string)
      requires paso == 3 && EsBloque(bloque)
      modifies this
      ensures Valor() == EnAsistente(old(Valor()), citasExistentes, Accion.ElegirHora(bloque))
      ensures ConNumeros(citasExistentes) ==>
                hora == if exists c :: c in citasExistentes && Toma(c, barberoId, fecha, bloque)
                        then old(hora) else bloque
    {
      if ConNumeros(citasExistentes) {
        OccupiedExactlyWhen(citasExistentes, barberoId, fecha, bloque);
      }
      hide EsHoraOcupada, EsBloque, Toma, ConNumeros;
      if !EsHoraOcupada(citasExistentes, Decimal(barberoId), fecha, bloque) {
        hora := bloque;
      }
    }

    /** The remaining inputs set one field each, on the step that shows them. */
    method Escribir(accion: Accion)
      requires accion.ElegirServicio? || accion.ElegirSucursal? || accion.ElegirBarbero? || accion.ElegirFecha? ||
               accion.EscribirContacto? || accion.EscribirCodigo?
      modifies this
      ensures Valor() == EnAsistente(old(Valor()), [], accion)
    {
      match accion {
        case ElegirServicio(id) => if paso == 1 { servicioId := id; }
        case ElegirSucursal(id) => if paso == 2 { sucursalId := id; }
        case ElegirBarbero(id) => if paso == 2 { barberoId := id; }
        case ElegirFecha(f) => if paso == 3 { fecha := f; }
        case EscribirContacto(n, c, t) => if paso == 4 { nombres, correo, telefono := n, c, t; }
        case EscribirCodigo(c) => if paso == 4 { codigoPromo := c; }
      }
    }

    /** The record that the confirmation button builds from the page's fields. */
    method NuevaCita(precioBase: nat, clienteId: int) returns (p: Pedido)
      ensures p == PedidoDe(Valor(), precioBase, clienteId)
      ensures p.barberoId == barberoId && p.clienteId == clienteId && p.fecha == fecha && p.hora == hora
      ensures p.costo == precioBase
      ensures 0 <= descuentoPorcentaje <= 100 ==> p.costo == p.descuento + p.total && 0 <= p.total <= p.costo
    {
      var montoDescuento := MontoDescuento(precioBase, descuentoPorcentaje);
      var totalPagar := precioBase - montoDescuento;
      if 0 <= descuentoPorcentaje <= 100 {
        DescuentoAcotado(precioBase, descuentoPorcentaje);
      }
      p := Pedido(barberoId, clienteId, fecha, hora, precioBase, montoDescuento, totalPagar);
    }
  }

  predicate EsDePagina(accion: Accion) {
    !accion.Abrir? && !accion.Salir? && !accion.Confirmar? && !accion.Completar? && !accion.CambiarEstadoCita? &&
    !accion.RestablecerTodo? && !accion.Mantener?
  }

  /** The control of the action is not on the screen. */
  predicate SinControl(s: EstadoApp, accion: Accion) {
    match accion
    case Abrir(_, _, _, _, _, _, _) => s.asistente.Some?
    case Salir => false
    case Confirmar(_, _) => s.asistente.None? || s.asistente.value.paso != 5
    case Completar(i, _, _, _, _) => i >= |s.pendientes|
    case CambiarEstadoCita(_, _, _, _, _) => false
    case RestablecerTodo(_, _) => s.asistente.Some?
    case Mantener(op, _, _) => op.Restablecer? || op.col == Citas
    case _ => s.asistente.None?
  }

  lemma NothingHappens(inicial: Base, s: EstadoApp, accion: Accion)
    requires SinControl(s, accion)
    ensures Ejecutar(inicial, s, accion) == s
  {
    hide EnAsistente, Siguiente, CitasDe;
  }

  lemma CorrerNada(inicial: Base, s: EstadoApp)
    ensures Correr(inicial, s, []) == s
  {}

  lemma CorrerSnoc(inicial: Base, s: EstadoApp, acciones: seq<Accion>, i: nat)
    requires i < |acciones|
    ensures Correr(inicial, s, acciones[..i + 1]) == Ejecutar(inicial, Correr(inicial, s, acciones[..i]), acciones[i])
  {
    hide Ejecutar;
    CorrerAppend(inicial, s, acciones[..i], [acciones[i]]);
    assert acciones[..i + 1] == acciones[..i] + [acciones[i]];
    assert [acciones[i]][1..] == [];
  }

  /** From a good state every action is prudent, or from one without double bookings every booking and every revival
      that is written finds its block free. */
  ghost predicate SesionPermitida(inicial: Base, s: EstadoApp, acciones: seq<Accion>) {
    (Bien(inicial, s) && CorridaPrudente(inicial, s, acciones)) ||
    (ConBloques(s) && SinDoblesEn(inicial, s) && CorridaSegura(inicial, s, acciones))
  }

  /** What the theorems about runs say of the end of a session. */
  lemma SesionSinDobles(inicial: Base, s: EstadoApp, acciones: seq<Accion>)
    requires SinDobles(CitasDe(inicial, None)) && SesionPermitida(inicial, s, acciones)
    ensures SinDoblesEn(inicial, Correr(inicial, s, acciones))
  {
    hide SinDobles, CorridaPrudente, ConBloques, CorridaSegura, Correr, AsistenteBien, PedidoLibre, CitasDe;
    if Bien(inicial, s) && CorridaPrudente(inicial, s, acciones) {
      SinDobleReserva(inicial, s, acciones);
    } else {
      hide SinDoblesEn;
      SinDoblesExactlyWhenSegura(inicial, s, acciones);
      assert acciones[..|acciones|] == acciones;
    }
  }

  class App {
    const api: Api
    var citas: seq<Registro>
    var pagina: BookingPage?
    var pendientes: seq<Pedido>

    function Valor(): EstadoApp
      reads this, api.db, pagina
    {
      EstadoApp(api.db.blob, citas, if pagina == null then None else Some(pagina.Valor()), pendientes)
    }

    function Inicial(): Base { api.db.inicial }

    constructor (api: Api, e: Entorno)
      modifies api.db
      ensures this.api == api
      ensures Valor() == EstadoApp(Sembrado(Inicial(), old(api.db.blob), e),
                                   Cargadas(Inicial(), old(api.db.blob), e), None, [])
      ensures e.lectura ==> Valor() == Inicio(Inicial(), api.db.blob)
    {
      this.api := api;
      pagina := null;
      pendientes := [];
      citas := [];
      new;
      citas := api.db.ObtenerTodos(Citas, e);
    }

    method AbrirAgendamiento(servicioId: int, sucursalId: int, barberoId: int, hoy: string, usuario: Option<Usuario>,
                             codigo: string, promos: seq<Promo>)
      requires pagina == null
      modifies this
      ensures Valor() == Ejecutar(Inicial(), old(Valor()),
                                  Abrir(servicioId, sucursalId, barberoId, hoy, usuario, codigo, promos))
      ensures fresh(pagina)
    {
      pagina := new BookingPage(servicioId, sucursalId, barberoId, hoy, usuario, codigo, promos);
    }

    method Navegar()
      modifies this
      ensures Valor() == Ejecutar(Inicial(), old(Valor()), Salir)
      ensures pagina == null
    {
      pagina := null;
    }

    method ManejarConfirmacionFinal(precioBase: nat, clienteId: int)
      requires pagina != null && pagina.paso == 5
      modifies this
      ensures Valor() == Ejecutar(Inicial(), old(Valor()), Confirmar(precioBase, clienteId))
      ensures pagina == old(pagina)
    {
      var p := pagina.NuevaCita(precioBase, clienteId);
      pendientes := pendientes + [p];
    }

    /** What runs after the timer of the i-th outstanding confirmation: refusal, or handleReservaExitosa. */
    method FinalizarReserva(i: nat, codigo: string, red: Red, e: Entorno, r: Entorno)
      requires i < |pendientes|
      modifies this, api.db
      ensures Valor() == Ejecutar(Inicial(), old(Valor()), Completar(i, codigo, red, e, r))
      ensures pagina == null
    {
      hide Siguiente, CamposDe;
      var p := pendientes[i];
      pendientes := pendientes[..i] + pendientes[i + 1..];
      if p.fecha != FECHA_RECHAZADA {
        var _ := api.AgendarCita(CamposDe(p), codigo, red, e);
        citas := api.db.ObtenerTodos(Citas, r);
      }
      pagina := null;
    }

    method HandleCambiarEstadoCita(id: int, nuevoEstado: string, red: Red, e: Entorno, r: Entorno)
      modifies this, api.db
      ensures Valor() == Ejecutar(Inicial(), old(Valor()), CambiarEstadoCita(id, nuevoEstado, red, e, r))
      ensures pagina == old(pagina)
    {
      hide Siguiente;
      var _ := api.CambiarEstadoDe(id, nuevoEstado, red, e);
      citas := api.db.ObtenerTodos(Citas, r);
    }

    method HandleRestablecerDatos(e: Entorno, r: Entorno)
      requires pagina == null
      modifies this, api.db
      ensures Valor() == Ejecutar(Inicial(), old(Valor()), RestablecerTodo(e, r))
      ensures pagina == old(pagina)
    {
      var ok := api.db.RestablecerDatos(e);
      if ok {
        citas := api.db.ObtenerTodos(Citas, r);
      }
    }

    /** The store call in which the handlers of the other collections end, and the reload of that collection. */
    method Mantenimiento(op: Op, e: Entorno, r: Entorno)
      requires !op.Restablecer? && op.col != Citas
      modifies api.db
      ensures Valor() == Ejecutar(Inicial(), old(Valor()), Mantener(op, e, r))
    {
      hide Siguiente, Sembrado, Cargada, Lista, MaxId, Indice, BaseValida, MapasDe;
      match op {
        case Crear(col, item) => var _ := api.db.Crear(col, item, e);
        case Actualizar(col, id, cambios) => var _ := api.db.Actualizar(col, id, cambios, e);
        case Eliminar(col, id) => var _ := api.db.Eliminar(col, id, e);
      }
      var _ := api.db.ObtenerTodos(op.col, r);
    }

    /** An input of the open page. */
    method EnPagina(accion: Accion)
      requires pagina != null && EsDePagina(accion)
      modifies pagina
      ensures Valor() == Ejecutar(Inicial(), old(Valor()), accion)
    {
      hide EsHoraOcupada, EsBloque, PuedeAvanzar;
      if accion.IniciarSesion? {
        pagina.RellenarContacto(accion.usuarioNuevo);
      } else if accion.AplicarCupon? {
        if pagina.paso == 4 { pagina.ValidarCupon(accion.promos); }
      } else if accion.Avanzar? {
        if pagina.paso < 5 { pagina.AvanzarPaso(citas, accion.correoValido); }
      } else if accion.Retroceder? {
        if pagina.paso > 1 { pagina.RetrocederPaso(); }
      } else if accion.ElegirHora? {
        if pagina.paso == 3 && EsBloque(accion.hora) { pagina.ElegirHora(citas, accion.hora); }
      } else {
        pagina.Escribir(accion);
      }
    }

    /** An action of the application itself. */
    method EnAplicacion(accion: Accion)
      requires !EsDePagina(accion)
      modifies this, api.db
      ensures Valor() == Ejecutar(Inicial(), old(Valor()), accion)
      ensures pagina == null || pagina == old(pagina) || fresh(pagina)
    {
      hide Ejecutar;
      if SinControl(Valor(), accion) {
        NothingHappens(Inicial(), Valor(), accion);
        return;
      }
      match accion {
        case Abrir(servicioId, sucursalId, barberoId, hoy, usuario, codigo, promos) =>
          AbrirAgendamiento(servicioId, sucursalId, barberoId, hoy, usuario, codigo, promos);
        case Salir => Navegar();
        case Confirmar(precioBase, clienteId) => ManejarConfirmacionFinal(precioBase, clienteId);
        case Completar(i, codigo, red, e, r) => FinalizarReserva(i, codigo, red, e, r);
        case CambiarEstadoCita(id, estado, red, e, r) => HandleCambiarEstadoCita(id, estado, red, e, r);
        case RestablecerTodo(e, r) => HandleRestablecerDatos(e, r);
        case Mantener(op, e, r) => Mantenimiento(op, e, r);
      }
    }

    /** Any action of the state machine; one whose control is not on the screen does nothing. */
    method Realizar(accion: Accion)
      modifies this, pagina, api.db
      ensures Valor() == Ejecutar(Inicial(), old(Valor()), accion)
      ensures pagina == null || pagina == old(pagina) || fresh(pagina)
    {
      hide Ejecutar;
      if !EsDePagina(accion) {
        EnAplicacion(accion);
      } else if pagina != null {
        EnPagina(accion);
      } else {
        NothingHappens(Inicial(), Valor(), accion);
      }
    }

    /** A whole session: it performs the run of the state machine, so it ends without double bookings whenever the
        theorems about runs say so. */
    method Recorrer(acciones: seq<Accion>)
      modifies this, pagina, api.db
      ensures Valor() == Correr(Inicial(), old(Valor()), acciones)
      ensures SinDobles(CitasDe(Inicial(), None)) && SesionPermitida(Inicial(), old(Valor()), acciones) ==>
                SinDoblesEn(Inicial(), Valor())
    {
      ghost var inicio := Valor();
      hide Ejecutar, SinDobles, SinDoblesEn, CitasDe, SesionPermitida;
      CorrerNada(Inicial(), inicio);
      for i := 0 to |acciones|
        invariant Valor() == Correr(Inicial(), inicio, acciones[..i])
        invariant pagina == null || pagina == old(pagina) || fresh(pagina)
      {
        CorrerSnoc(Inicial(), inicio, acciones, i);
        Realizar(acciones[i]);
      }
      assert acciones[..|acciones|] == acciones;
      if SinDobles(CitasDe(Inicial(), None)) && SesionPermitida(Inicial(), inicio, acciones) {
        SesionSinDobles(Inicial(), inicio, acciones);
      }
    }
  }
}
