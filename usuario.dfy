/** domain/model/Usuario.py: a registered account. */
module UsuarioModelo {
  import opened Wrappers

  /** The constructor's defaults are those of `Usuario.__init__`: no e-mail, the
      ordinary role "usuario", active. */
  datatype Usuario = Usuario(
    id: int,
    username: string,
    passwordHash: string,
    email: Option<string> := None,
    rol: string := "usuario",
    activo: bool := true)
  {
    /** `es_admin()`: the role alone decides; the user name plays no part. */
    predicate EsAdmin() {
      rol == "admin"
    }
  }

  /** A user built with only the required arguments keeps them, has no e-mail,
      is active and is not an administrator. */
  lemma UsuarioPorDefecto(id: int, username: string, passwordHash: string)
    ensures var u := Usuario(id, username, passwordHash);
      && u.id == id && u.username == username && u.passwordHash == passwordHash
      && u.email == None && u.rol == "usuario" && u.activo && !u.EsAdmin()
  {
  }

  /** `es_admin()` holds exactly for the role "admin", whatever the user name:
      an account named "admin" with the ordinary role is not an administrator. */
  lemma EsAdminSoloPorRol(u: Usuario)
    ensures u.EsAdmin() <==> u.rol == "admin"
    ensures !u.(username := "admin", rol := "usuario").EsAdmin()
  {
  }
}
