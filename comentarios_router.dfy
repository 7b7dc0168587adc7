/** routers/comentarios_router.py: the form handlers behind the comment box of a
    dinosaur's page. Each one runs after `require_auth` admitted the user, works on
    the comment tables and answers with a redirect back to the dinosaur's page. */
module ComentariosRouter {
  import opened Wrappers
  import opened Text
  import opened Tables
  import opened Store
  import opened ComentarioModelo
  import opened ComentarioRepositorio
  import opened Sesion
  import opened Dependencias

  /** The error the insert ends with when the session's user id is not a number. */
  const ErrorUsuarioSinId := "usuario_id is not an integer"

  /** `f"/dinosaurios/{dinosaurio_id}"`: the page every handler redirects to. */
  function RedireccionFicha(dinosaurioId: int): (url: string)
    ensures StartsWith(url, "/dinosaurios/")
    ensures ParseInt(url[|"/dinosaurios/"|..]) == Some(dinosaurioId)
  {
    var url := "/dinosaurios/" + IntToString(dinosaurioId);
    assert url[|"/dinosaurios/"|..] == IntToString(dinosaurioId);
    ParseIntToString(dinosaurioId);
    url
  }

  /** Two pages are the same exactly when the dinosaurs are. */
  lemma RedireccionInyectiva(a: int, b: int)
    ensures RedireccionFicha(a) == RedireccionFicha(b) <==> a == b
  {
    if RedireccionFicha(a) == RedireccionFicha(b) {
      assert ParseInt(RedireccionFicha(a)[|"/dinosaurios/"|..]) == Some(a);
    }
  }

  /** `SELECT usuario_id FROM comentarios WHERE id = %s`, `fetchone()`: the author of
      comment `id`, or None when there is no such comment. */
  function AutorDe(rows: seq<ComentarioRow>, id: int): (r: Option<int>)
    ensures r.Some? <==> ExisteComentario(rows, id)
    ensures r.Some? ==> exists f :: f in rows && f.id == id && f.usuarioId == r.value
  {
    match FindById(rows, (f: ComentarioRow) => f.id, id)
    case Some(f) => Some(f.usuarioId)
    case None => None
  }

  /** `es_autor or es_admin`: the session's id equals the author's (Python `==`
      between the stored value and the integer column), or the session's role is
      "admin". */
  predicate EsAutorOAdmin(autor: int, usuario: SessionUser) {
    ComoEntero(usuario.id) == Some(autor) || usuario.rol == VStr("admin")
  }

  /** The edit and delete handlers act only on an existing comment, and only for its
      author or an admin. */
  predicate PuedeModificar(rows: seq<ComentarioRow>, id: int, usuario: SessionUser) {
    match AutorDe(rows, id)
    case Some(autor) => EsAutorOAdmin(autor, usuario)
    case None => false
  }

  /** In a table keyed by id, the gate lets `usuario` through exactly when comment
      `id` exists and `usuario` wrote it or is an admin. */
  lemma PuedeModificarExacto(rows: seq<ComentarioRow>, id: int, usuario: SessionUser)
    requires IdsCrecientes(rows)
    ensures PuedeModificar(rows, id, usuario) <==>
      exists f :: f in rows && f.id == id && (ComoEntero(usuario.id) == Some(f.usuarioId) || usuario.rol == VStr("admin"))
  {
    var autor := AutorDe(rows, id);
    if autor.Some? {
      var f :| f in rows && f.id == id && f.usuarioId == autor.value;
      forall g | g in rows && g.id == id ensures g == f {
        IdUnico(rows, f, g);
      }
    }
  }

  /** A user the router treats as admin is also let through by `require_auth_admin`. */
  lemma AdminDelRouterEsAdmin(usuario: SessionUser)
    requires usuario.rol == VStr("admin")
    ensures DecidirAuthAdmin(Some(usuario)) == Admitido(usuario)
  {
  }

  /** The two admin checks disagree: `require_auth_admin` also admits the user named
      "admin", while the comment handlers look only at the role, so that user may
      not edit or delete a comment written by someone else. */
  lemma NombreAdminNoBasta(rows: seq<ComentarioRow>, id: int, autor: int, otro: int)
    requires autor != otro
    requires exists f :: f in rows && f.id == id && f.usuarioId == autor
    requires IdsCrecientes(rows)
    ensures var u := SessionUser(VInt(otro), VInt(otro), VStr("admin"), VStr("usuario"));
      DecidirAuthAdmin(Some(u)) == Admitido(u) && !PuedeModificar(rows, id, u)
  {
    var u := SessionUser(VInt(otro), VInt(otro), VStr("admin"), VStr("usuario"));
    PuedeModificarExacto(rows, id, u);
    if PuedeModificar(rows, id, u) {
      var f :| f in rows && f.id == id && f.usuarioId == autor;
      var g :| g in rows && g.id == id && (ComoEntero(u.id) == Some(g.usuarioId) || u.rol == VStr("admin"));
      IdUnico(rows, f, g);
    }
  }

  /** `crear_comentario`: builds a `Comentario` from the form and the session's user
      id and inserts it; redirects to the dinosaur's page. The insert fails, and
      nothing is written, when the parent comment does not exist or the session's id
      is not a number. */
  method CrearComentario(db: Database, dinosaurioId: int, contenido: string, comentarioPadreId: Option<int>,
                         usuario: SessionUser, ahora: int) returns (r: Result<string>)
    requires db.ComentariosValidos()
    modifies db`comentarios, db`siguienteComentarioId
    ensures db.ComentariosValidos()
    ensures match ComoEntero(usuario.id)
      case None =>
        r == Err(ErrorUsuarioSinId) && db.comentarios == old(db.comentarios)
        && db.siguienteComentarioId == old(db.siguienteComentarioId)
      case Some(autor) =>
        if comentarioPadreId.Some? && !ExisteComentario(old(db.comentarios), comentarioPadreId.value) then
          r == Err(ErrorClaveForanea) && db.comentarios == old(db.comentarios)
          && db.siguienteComentarioId == old(db.siguienteComentarioId)
        else
          && r == Ok(RedireccionFicha(dinosaurioId))
          && db.siguienteComentarioId == old(db.siguienteComentarioId) + 1
          && db.comentarios == old(db.comentarios) + [ComentarioRow(old(db.siguienteComentarioId),
               dinosaurioId, autor, contenido, ahora, comentarioPadreId, None)]
  {
    var autor := ComoEntero(usuario.id);
    if autor.None? {
      return Err(ErrorUsuarioSinId);
    }
    var comentario := new Comentario(0, dinosaurioId, autor.value, contenido, comentarioPadreId := comentarioPadreId);
    var insertado := InsertarComentario(db, comentario, ahora);
    if insertado.Err? {
      return Err(insertado.error);
    }
    r := Ok(RedireccionFicha(dinosaurioId));
  }

  /** `actualizar_comentario` (the handler): looks up the author, and lets the author
      or an admin change the text; a missing comment or another user changes
      nothing. Always redirects to the dinosaur's page. */
  method ActualizarComentarioHandler(db: Database, id: int, dinosaurioId: int, contenido: string,
                                     usuario: SessionUser, ahora: int) returns (url: string)
    requires db.ComentariosValidos()
    modifies db`comentarios
    ensures url == RedireccionFicha(dinosaurioId)
    ensures db.comentarios == if PuedeModificar(old(db.comentarios), id, usuario)
                              then Editar(old(db.comentarios), id, contenido, ahora)
                              else old(db.comentarios)
    ensures db.ComentariosValidos()
  {
    var autor := AutorDe(db.comentarios, id);
    if autor.None? {
      return RedireccionFicha(dinosaurioId);
    }
    var esAutor := ComoEntero(usuario.id) == Some(autor.value);
    var esAdmin := usuario.rol == VStr("admin");
    if esAutor || esAdmin {
      ActualizarComentario(db, id, contenido, ahora);
    }
    url := RedireccionFicha(dinosaurioId);
  }

  /** `borrar_comentario` (the handler): looks up the author, and lets the author or
      an admin delete the comment with its replies; a missing comment or another
      user changes nothing. Always redirects to the dinosaur's page. */
  method BorrarComentarioHandler(db: Database, id: int, dinosaurioId: int, usuario: SessionUser)
    returns (url: string)
    requires db.ComentariosValidos()
    modifies db`comentarios
    ensures url == RedireccionFicha(dinosaurioId)
    ensures db.comentarios == if PuedeModificar(old(db.comentarios), id, usuario)
                              then BorrarEnCascada(old(db.comentarios), id)
                              else old(db.comentarios)
    ensures db.ComentariosValidos()
  {
    var autor := AutorDe(db.comentarios, id);
    if autor.None? {
      return RedireccionFicha(dinosaurioId);
    }
    var esAutor := ComoEntero(usuario.id) == Some(autor.value);
    var esAdmin := usuario.rol == VStr("admin");
    if esAutor || esAdmin {
      BorrarComentario(db, id);
    }
    url := RedireccionFicha(dinosaurioId);
  }

  /** The vote kinds the form may send. */
  predicate TipoVotoValido(tipo: string) {
    tipo == "positivo" || tipo == "negativo"
  }

  /** `votar_comentario`: a vote kind other than "positivo" or "negativo" is ignored;
      otherwise the user's vote on the comment becomes that kind. */
  method VotarComentario(db: Database, id: int, dinosaurioId: int, tipoVoto: string, usuario: SessionUser)
    returns (r: Result<string>)
    modifies db`votos
    ensures !TipoVotoValido(tipoVoto) ==> r == Ok(RedireccionFicha(dinosaurioId)) && db.votos == old(db.votos)
    ensures TipoVotoValido(tipoVoto) ==> match ComoEntero(usuario.id)
      case None => r == Err(ErrorUsuarioSinId) && db.votos == old(db.votos)
      case Some(u) => r == Ok(RedireccionFicha(dinosaurioId)) && db.votos == old(db.votos)[(id, u) := tipoVoto]
  {
    if !(tipoVoto == "positivo" || tipoVoto == "negativo") {
      return Ok(RedireccionFicha(dinosaurioId));
    }
    var usuarioId := ComoEntero(usuario.id);
    if usuarioId.None? {
      return Err(ErrorUsuarioSinId);
    }
    AgregarVoto(db, id, usuarioId.value, tipoVoto);
    r := Ok(RedireccionFicha(dinosaurioId));
  }

  /** `quitar_voto`: the user's vote on the comment, if any, is gone. */
  method QuitarVoto(db: Database, id: int, dinosaurioId: int, usuario: SessionUser) returns (r: Result<string>)
    modifies db`votos
    ensures match ComoEntero(usuario.id)
      case None => r == Err(ErrorUsuarioSinId) && db.votos == old(db.votos)
      case Some(u) => r == Ok(RedireccionFicha(dinosaurioId)) && db.votos == old(db.votos) - {(id, u)}
  {
    var usuarioId := ComoEntero(usuario.id);
    if usuarioId.None? {
      return Err(ErrorUsuarioSinId);
    }
    EliminarVoto(db, id, usuarioId.value);
    r := Ok(RedireccionFicha(dinosaurioId));
  }

  /** Every vote in the ledger is "positivo" or "negativo". */
  predicate VotosLimpios(votos: map<VotoKey, string>) {
    forall k :: k in votos ==> TipoVotoValido(votos[k])
  }

  /** Through the handlers, a vote can only ever be "positivo" or "negativo": voting
      and retracting keep the ledger clean. */
  lemma VotosLimpiosPreservados(votos: map<VotoKey, string>, c: int, u: int, tipo: string)
    requires VotosLimpios(votos)
    requires TipoVotoValido(tipo)
    ensures VotosLimpios(votos[(c, u) := tipo])
    ensures VotosLimpios(votos - {(c, u)})
  {
  }

  /** On a clean ledger the two counts add up to the number of votes on the comment. */
  lemma ConteosSumanTotal(votos: map<VotoKey, string>, c: int)
    requires VotosLimpios(votos)
    ensures CuentaTipo(votos, c, "positivo") + CuentaTipo(votos, c, "negativo")
         == |set k | k in votos && k.0 == c|
  {
    var pos := set k | k in votos && k.0 == c && votos[k] == "positivo";
    var neg := set k | k in votos && k.0 == c && votos[k] == "negativo";
    var todos := set k | k in votos && k.0 == c;
    assert todos == pos + neg;
    assert pos * neg == {};
  }
}
