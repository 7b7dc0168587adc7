/** utils/session.py: the signed-cookie session of a request, as a dictionary
    from keys to loosely typed values, and the three things a handler asks of it. */
module Sesion {
  import opened Wrappers
  import opened UsuarioModelo

  /** A value stored in the session dictionary. */
  datatype Value = VInt(i: int) | VStr(s: string) | VBool(b: bool) | VNone

  /** Python truthiness of a session value. */
  predicate Truthy(v: Value) {
    match v
    case VInt(i) => i != 0
    case VStr(s) => s != ""
    case VBool(b) => b
    case VNone => false
  }

  /** The integer a value stands for when compared with or stored as an integer
      column: Python's `True == 1` and `False == 0`; strings and None are not integers. */
  function ComoEntero(v: Value): (r: Option<int>)
    ensures r.Some? <==> v.VInt? || v.VBool?
    ensures v.VInt? ==> r == Some(v.i)
  {
    match v
    case VInt(i) => Some(i)
    case VBool(b) => Some(if b then 1 else 0)
    case _ => None
  }

  /** `session.get(k)`: the stored value, or None when the key is absent. */
  function Get(m: map<string, Value>, k: string): Value {
    if k in m then m[k] else VNone
  }

  /** The dictionary `obtener_sesion` builds, handed to handlers as the current user. */
  datatype SessionUser = SessionUser(userId: Value, id: Value, username: Value, rol: Value)

  /** The HTTP request, of which only the session dictionary is modelled. */
  class Request {
    var session: map<string, Value>

    constructor (session: map<string, Value>)
      ensures this.session == session
    {
      this.session := session;
    }
  }

  /** The session after `crear_sesion`: the five keys it writes, over what was there. */
  function SesionCreada(m: map<string, Value>, userId: int, username: string, rol: string): map<string, Value> {
    m["user_id" := VInt(userId)]["id" := VInt(userId)]["username" := VStr(username)]
     ["rol" := VStr(rol)]["authenticated" := VBool(true)]
  }

  /** `crear_sesion`: remembers the user in the session. */
  method CrearSesion(request: Request, userId: int, username: string, rol: string)
    modifies request
    ensures request.session == SesionCreada(old(request.session), userId, username, rol)
  {
    request.session := request.session["user_id" := VInt(userId)];
    request.session := request.session["id" := VInt(userId)];
    request.session := request.session["username" := VStr(username)];
    request.session := request.session["rol" := VStr(rol)];
    request.session := request.session["authenticated" := VBool(true)];
  }

  /** `obtener_sesion`: the user of a non-empty session whose `authenticated` flag is truthy. */
  function ObtenerSesion(m: map<string, Value>): (r: Option<SessionUser>)
    ensures r.Some? <==> m != map[] && Truthy(Get(m, "authenticated"))
    ensures r.Some? ==> r.value.userId == Get(m, "user_id") && r.value.id == Get(m, "id")
    ensures r.Some? ==> r.value.username == Get(m, "username") && r.value.rol == Get(m, "rol")
  {
    if m == map[] || !Truthy(Get(m, "authenticated")) then None
    else Some(SessionUser(Get(m, "user_id"), Get(m, "id"), Get(m, "username"), Get(m, "rol")))
  }

  /** A session created for a user reads back as exactly that user, whatever it held before. */
  lemma SesionIdaYVuelta(m: map<string, Value>, userId: int, username: string, rol: string)
    ensures ObtenerSesion(SesionCreada(m, userId, username, rol))
         == Some(SessionUser(VInt(userId), VInt(userId), VStr(username), VStr(rol)))
  {
    var s := SesionCreada(m, userId, username, rol);
    assert "authenticated" in s;
  }

  /** `destruir_sesion`: clears the session. */
  method DestruirSesion(request: Request)
    modifies request
    ensures request.session == map[]
  {
    request.session := map[];
  }

  /** `usuario_autenticado`: whether the session holds a user. */
  function UsuarioAutenticado(m: map<string, Value>): (r: bool)
    ensures r <==> m != map[] && Truthy(Get(m, "authenticated"))
  {
    ObtenerSesion(m).Some?
  }

  /** A destroyed session holds no user. */
  lemma SesionDestruida()
    ensures ObtenerSesion(map[]) == None && !UsuarioAutenticado(map[])
  {
  }

  /** A session that was never logged in, or logged out by setting the flag to
      False, holds no user even when it still carries a user id. */
  lemma SinBanderaNoHayUsuario(m: map<string, Value>)
    requires "authenticated" !in m || m["authenticated"] == VBool(false)
    ensures !UsuarioAutenticado(m)
  {
  }

  /** What `UsuarioRepository.get_by_id` does with the session's user id. */
  datatype Consulta = Encontrado(usuario: Usuario) | NoEncontrado | Falla

  /** The lookup outcome that makes `obtener_usuario_actual` end the session. */
  predicate Desactivado(c: Consulta) {
    c.Encontrado? && !c.usuario.activo
  }

  /** `obtener_usuario_actual`: the session's user, unless the database knows the
      user as inactive, in which case the session is destroyed. `buscar` stands for
      the database lookup by `user_id`. */
  method ObtenerUsuarioActual(request: Request, buscar: Value -> Consulta) returns (r: Option<SessionUser>)
    modifies request
    ensures var s := ObtenerSesion(old(request.session));
      if s.Some? && Desactivado(buscar(s.value.userId))
      then r == None && request.session == map[]
      else r == s && request.session == old(request.session)
  {
    var sesion := ObtenerSesion(request.session);
    if sesion.None? {
      return None;
    }
    var usuario := buscar(sesion.value.userId);
    match usuario
    case Encontrado(u) =>
      if !u.activo {
        DestruirSesion(request);
        return None;
      }
      return sesion;
    case NoEncontrado =>
      return sesion;
    case Falla =>
      return sesion;
  }

  /** The user `obtener_usuario_actual` reports, as a function of the session and the lookup. */
  function UsuarioActual(m: map<string, Value>, buscar: Value -> Consulta): Option<SessionUser> {
    var s := ObtenerSesion(m);
    if s.Some? && Desactivado(buscar(s.value.userId)) then None else s
  }

  /** A user missing from the database, or a lookup that fails, keeps the session's user. */
  lemma UsuarioActualSinBaja(m: map<string, Value>, buscar: Value -> Consulta)
    requires ObtenerSesion(m).Some?
    requires !buscar(ObtenerSesion(m).value.userId).Encontrado?
    ensures UsuarioActual(m, buscar) == ObtenerSesion(m)
  {
  }

  /** A freshly created session of an active user yields that user. */
  lemma UsuarioActualTrasLogin(m: map<string, Value>, u: Usuario, buscar: Value -> Consulta)
    requires u.activo
    requires buscar(VInt(u.id)) == Encontrado(u)
    ensures UsuarioActual(SesionCreada(m, u.id, u.username, u.rol), buscar)
         == Some(SessionUser(VInt(u.id), VInt(u.id), VStr(u.username), VStr(u.rol)))
  {
    SesionIdaYVuelta(m, u.id, u.username, u.rol);
  }

  /** A freshly created session of an inactive user yields no user. */
  lemma UsuarioInactivoRechazado(m: map<string, Value>, u: Usuario, buscar: Value -> Consulta)
    requires !u.activo
    requires buscar(VInt(u.id)) == Encontrado(u)
    ensures UsuarioActual(SesionCreada(m, u.id, u.username, u.rol), buscar) == None
  {
    SesionIdaYVuelta(m, u.id, u.username, u.rol);
  }
}
