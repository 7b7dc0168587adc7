/** utils/dependencies.py: the two guards routes declare, as decisions on the
    current user. */
module Dependencias {
  import opened Wrappers
  import opened Sesion

  /** How a guarded route proceeds: with the user, with a temporary redirect to
      `/auth/login`, or with 403 Forbidden. */
  datatype Decision = Admitido(usuario: SessionUser) | RedirigirALogin | Prohibido

  /** The check `require_auth_admin` makes: role "admin" or user name "admin". */
  predicate PasaControlAdmin(u: SessionUser) {
    u.rol == VStr("admin") || u.username == VStr("admin")
  }

  /** The decision of `require_auth` on the current user. */
  function DecidirAuth(actual: Option<SessionUser>): (d: Decision)
    ensures actual.None? <==> d == RedirigirALogin
    ensures actual.Some? ==> d == Admitido(actual.value)
    ensures d != Prohibido
  {
    if actual.None? then RedirigirALogin else Admitido(actual.value)
  }

  /** The decision of `require_auth_admin` on the current user. */
  function DecidirAuthAdmin(actual: Option<SessionUser>): (d: Decision)
    ensures actual.None? <==> d == RedirigirALogin
    ensures d.Admitido? <==> actual.Some? && PasaControlAdmin(actual.value)
    ensures d.Admitido? ==> d.usuario == actual.value
    ensures d == Prohibido <==> actual.Some? && !PasaControlAdmin(actual.value)
  {
    if actual.None? then RedirigirALogin
    else if actual.value.rol != VStr("admin") && actual.value.username != VStr("admin") then Prohibido
    else Admitido(actual.value)
  }

  /** `require_auth`: looks up the current user and decides. */
  method RequireAuth(request: Request, buscar: Value -> Consulta) returns (d: Decision)
    modifies request
    ensures d == DecidirAuth(UsuarioActual(old(request.session), buscar))
  {
    var usuario := ObtenerUsuarioActual(request, buscar);
    d := DecidirAuth(usuario);
  }

  /** `require_auth_admin`: looks up the current user and decides. */
  method RequireAuthAdmin(request: Request, buscar: Value -> Consulta) returns (d: Decision)
    modifies request
    ensures d == DecidirAuthAdmin(UsuarioActual(old(request.session), buscar))
  {
    var usuario := ObtenerUsuarioActual(request, buscar);
    d := DecidirAuthAdmin(usuario);
  }

  /** Whoever passes the admin guard also passes the plain one, with the same user. */
  lemma AdminImplicaAuth(actual: Option<SessionUser>)
    requires DecidirAuthAdmin(actual).Admitido?
    ensures DecidirAuth(actual) == DecidirAuthAdmin(actual)
  {
  }

  /** The admin guard is wider than a role check: an account named "admin" with the
      ordinary role passes it, although `Usuario.es_admin` is false for it. */
  lemma AdminPorNombre(id: int)
    ensures var u := SessionUser(VInt(id), VInt(id), VStr("admin"), VStr("usuario"));
      && DecidirAuthAdmin(Some(u)) == Admitido(u)
      && u.rol != VStr("admin")
  {
  }

  /** A logged-in user with neither the role nor the name "admin" is refused
      with 403, never sent to log in. */
  lemma NoAdminProhibido(u: SessionUser)
    requires u.rol != VStr("admin") && u.username != VStr("admin")
    ensures DecidirAuthAdmin(Some(u)) == Prohibido
  {
  }

  /** A user who has just logged in and is still active passes `require_auth` as
      the user the session recorded. */
  lemma LoginAdmitido(m: map<string, Value>, id: int, username: string, rol: string, buscar: Value -> Consulta)
    requires !Desactivado(buscar(VInt(id)))
    ensures DecidirAuth(UsuarioActual(SesionCreada(m, id, username, rol), buscar))
         == Admitido(SessionUser(VInt(id), VInt(id), VStr(username), VStr(rol)))
  {
    SesionIdaYVuelta(m, id, username, rol);
  }
}
