/** data/comentario_repository.py: the comment tree of a dinosaur's page, the vote
    ledger, and the writes on both tables. */
module ComentarioRepositorio {
  import opened Wrappers
  import opened Tables
  import opened Sorting
  import opened Store
  import opened ComentarioModelo

  // ---------------------------------------------------------------------------
  // Vote ledger

  /** The tally `get_votos` reports for one comment. */
  datatype Votos = Votos(positivos: nat, negativos: nat, votoUsuario: Option<string>)

  /** The number of votes of kind `tipo` on comment `c`. */
  function CuentaTipo(votos: map<VotoKey, string>, c: int, tipo: string): nat {
    |set k | k in votos && k.0 == c && votos[k] == tipo|
  }

  /** The kinds voted on comment `c`. */
  function TiposDe(votos: map<VotoKey, string>, c: int): set<string> {
    set k | k in votos && k.0 == c :: votos[k]
  }

  /** `SELECT tipo_voto, COUNT(*) ... GROUP BY tipo_voto`: one (kind, count) row per
      kind voted on comment `c`, in no particular order. */
  function Grupos(votos: map<VotoKey, string>, c: int): set<(string, nat)> {
    set t | t in TiposDe(votos, c) :: (t, CuentaTipo(votos, c, t))
  }

  /** Python truthiness of the optional viewer id: None and 0 mean "no viewer". */
  predicate HayUsuario(usuarioId: Option<int>) {
    usuarioId.Some? && usuarioId.value != 0
  }

  /** What `get_votos` reports: the positive and negative counts, and the viewer's own
      vote when there is a viewer who voted. */
  function VotosDe(votos: map<VotoKey, string>, c: int, usuarioId: Option<int>): Votos {
    Votos(CuentaTipo(votos, c, "positivo"), CuentaTipo(votos, c, "negativo"),
          if HayUsuario(usuarioId) && (c, usuarioId.value) in votos
          then Some(votos[(c, usuarioId.value)]) else None)
  }

  /** A kind with at least one vote has its group row, and every group row carries
      the true count of its kind. */
  lemma GrupoDeTipo(votos: map<VotoKey, string>, c: int, tipo: string)
    ensures CuentaTipo(votos, c, tipo) > 0 ==> (tipo, CuentaTipo(votos, c, tipo)) in Grupos(votos, c)
    ensures forall g :: g in Grupos(votos, c) && g.0 == tipo ==> g.1 == CuentaTipo(votos, c, tipo)
  {
    if CuentaTipo(votos, c, tipo) > 0 {
      var s := set k | k in votos && k.0 == c && votos[k] == tipo;
      var k :| k in s;
      assert tipo in TiposDe(votos, c);
    }
  }

  /** `get_votos`: reads the group rows in whatever order they come, keeping the
      counts of "positivo" and "negativo" and ignoring any other kind. */
  method GetVotos(db: Database, comentarioId: int, usuarioId: Option<int>) returns (v: Votos)
    ensures v == VotosDe(db.votos, comentarioId, usuarioId)
  {
    var grupos := Grupos(db.votos, comentarioId);
    ghost var pos := ("positivo", CuentaTipo(db.votos, comentarioId, "positivo"));
    ghost var neg := ("negativo", CuentaTipo(db.votos, comentarioId, "negativo"));
    GrupoDeTipo(db.votos, comentarioId, "positivo");
    GrupoDeTipo(db.votos, comentarioId, "negativo");
    var positivos: nat, negativos: nat := 0, 0;
    while grupos != {}
      invariant grupos <= Grupos(db.votos, comentarioId)
      invariant positivos == if pos in grupos then 0 else pos.1
      invariant negativos == if neg in grupos then 0 else neg.1
      decreases |grupos|
    {
      var g :| g in grupos;
      if g.0 == "positivo" {
        positivos := g.1;
      } else if g.0 == "negativo" {
        negativos := g.1;
      }
      grupos := grupos - {g};
    }
    var votoUsuario: Option<string> := None;
    if usuarioId.Some? && usuarioId.value != 0 {
      if (comentarioId, usuarioId.value) in db.votos {
        votoUsuario := Some(db.votos[(comentarioId, usuarioId.value)]);
      }
    }
    v := Votos(positivos, negativos, votoUsuario);
  }

  /** `agregar_voto`: the viewer's vote on the comment becomes `tipo`, by updating the
      existing row or inserting one; no other vote changes. */
  method AgregarVoto(db: Database, comentarioId: int, usuarioId: int, tipo: string)
    modifies db`votos
    ensures db.votos == old(db.votos)[(comentarioId, usuarioId) := tipo]
  {
    if (comentarioId, usuarioId) in db.votos {
      db.votos := db.votos[(comentarioId, usuarioId) := tipo];
    } else {
      db.votos := db.votos[(comentarioId, usuarioId) := tipo];
    }
  }

  /** `eliminar_voto`: the viewer's vote on the comment is gone, if there was one. */
  method EliminarVoto(db: Database, comentarioId: int, usuarioId: int)
    modifies db`votos
    ensures db.votos == old(db.votos) - {(comentarioId, usuarioId)}
  {
    db.votos := db.votos - {(comentarioId, usuarioId)};
  }

  /** The votes of kind `tipo` on comment `c2`, by key. */
  function VotosTipo(votos: map<VotoKey, string>, c2: int, tipo: string): set<VotoKey> {
    set k | k in votos && k.0 == c2 && votos[k] == tipo
  }

  /** The keys of kind `tipo` after one vote is cast or changed. */
  lemma VotosTipoTrasVotar(votos: map<VotoKey, string>, c: int, u: int, t: string, c2: int, tipo: string)
    ensures VotosTipo(votos[(c, u) := t], c2, tipo)
         == (VotosTipo(votos, c2, tipo) - {(c, u)}) + (if c2 == c && t == tipo then {(c, u)} else {})
  {
    var nuevos := votos[(c, u) := t];
    var izq := VotosTipo(nuevos, c2, tipo);
    var der := (VotosTipo(votos, c2, tipo) - {(c, u)}) + (if c2 == c && t == tipo then {(c, u)} else {});
    forall k ensures k in izq <==> k in der {
      if k == (c, u) {
      } else {
        assert k in nuevos <==> k in votos;
      }
    }
  }

  /** How casting or changing one vote moves each count: the voter's old kind loses
      one, the new kind gains one, and other comments' counts do not move. */
  lemma CuentaTrasVotar(votos: map<VotoKey, string>, c: int, u: int, t: string, c2: int, tipo: string)
    ensures CuentaTipo(votos[(c, u) := t], c2, tipo)
         == CuentaTipo(votos, c2, tipo)
            - (if c2 == c && (c, u) in votos && votos[(c, u)] == tipo then 1 else 0)
            + (if c2 == c && t == tipo then 1 else 0)
  {
    VotosTipoTrasVotar(votos, c, u, t, c2, tipo);
    var antes := VotosTipo(votos, c2, tipo);
    assert CuentaTipo(votos, c2, tipo) == |antes|;
    assert CuentaTipo(votos[(c, u) := t], c2, tipo) == |VotosTipo(votos[(c, u) := t], c2, tipo)|;
    assert (c, u) in antes <==> c2 == c && (c, u) in votos && votos[(c, u)] == tipo;
    var sin := antes - {(c, u)};
    assert |sin| == |antes| - (if (c, u) in antes then 1 else 0);
  }

  /** How retracting one vote moves each count. */
  lemma CuentaTrasRetirar(votos: map<VotoKey, string>, c: int, u: int, c2: int, tipo: string)
    ensures CuentaTipo(votos - {(c, u)}, c2, tipo)
         == CuentaTipo(votos, c2, tipo)
            - (if c2 == c && (c, u) in votos && votos[(c, u)] == tipo then 1 else 0)
  {
    var nuevos := votos - {(c, u)};
    var antes := set k | k in votos && k.0 == c2 && votos[k] == tipo;
    var despues := set k | k in nuevos && k.0 == c2 && nuevos[k] == tipo;
    assert despues == antes - {(c, u)};
  }

  /** A comment nobody voted on shows no votes and no viewer vote. */
  lemma SinVotos(votos: map<VotoKey, string>, c: int, usuarioId: Option<int>)
    requires forall k :: k in votos ==> k.0 != c
    ensures VotosDe(votos, c, usuarioId) == Votos(0, 0, None)
  {
    assert (set k | k in votos && k.0 == c && votos[k] == "positivo") == {};
    assert (set k | k in votos && k.0 == c && votos[k] == "negativo") == {};
  }

  /** A vote of a kind other than "positivo" or "negativo" moves neither count. */
  lemma OtroTipoIgnorado(votos: map<VotoKey, string>, c: int, u: int, t: string)
    requires t != "positivo" && t != "negativo"
    requires (c, u) !in votos
    ensures VotosDe(votos[(c, u) := t], c, None) == VotosDe(votos, c, None)
  {
    CuentaTrasVotar(votos, c, u, t, c, "positivo");
    CuentaTrasVotar(votos, c, u, t, c, "negativo");
  }

  /** After voting, the viewer sees the kind they chose as their own vote. */
  lemma VotoPropio(votos: map<VotoKey, string>, c: int, u: int, t: string)
    requires u != 0
    ensures VotosDe(votos[(c, u) := t], c, Some(u)).votoUsuario == Some(t)
  {
  }

  /** Changing a vote moves it: voting "positivo" and then "negativo" on a comment
      nobody had voted on leaves one negative vote, no positive one, and the viewer's
      vote "negativo". */
  lemma PositivoLuegoNegativo(votos: map<VotoKey, string>, c: int, u: int)
    requires u != 0
    requires forall k :: k in votos ==> k.0 != c
    ensures VotosDe(votos[(c, u) := "positivo"][(c, u) := "negativo"], c, Some(u))
         == Votos(0, 1, Some("negativo"))
  {
    SinVotos(votos, c, None);
    var v1 := votos[(c, u) := "positivo"];
    CuentaTrasVotar(votos, c, u, "positivo", c, "positivo");
    CuentaTrasVotar(votos, c, u, "positivo", c, "negativo");
    CuentaTrasVotar(v1, c, u, "negativo", c, "positivo");
    CuentaTrasVotar(v1, c, u, "negativo", c, "negativo");
  }

  /** Retracting a vote gives back the tally from before it was cast. */
  lemma RetirarDeshaceVotar(votos: map<VotoKey, string>, c: int, u: int, t: string)
    requires (c, u) !in votos
    ensures votos[(c, u) := t] - {(c, u)} == votos
  {
  }

  // ---------------------------------------------------------------------------
  // The comment tree

  /** `ORDER BY c.fecha_creacion DESC`. */
  function MasRecienteLe(a: ComentarioRow, b: ComentarioRow): bool {
    a.fechaCreacion >= b.fechaCreacion
  }

  /** `ORDER BY c.fecha_creacion ASC`. */
  function MasAntiguoLe(a: ComentarioRow, b: ComentarioRow): bool {
    a.fechaCreacion <= b.fechaCreacion
  }

  /** A row the top-level query selects: a comment of the dinosaur with no parent
      whose author exists (the inner join on `usuarios`). */
  predicate EsRaiz(usuarios: map<int, string>, dinosaurioId: int, r: ComentarioRow) {
    r.dinosaurioId == dinosaurioId && r.comentarioPadreId.None? && r.usuarioId in usuarios
  }

  /** A row the reply query selects: a reply to `padreId`, of any dinosaur, whose author exists. */
  predicate EsRespuesta(usuarios: map<int, string>, padreId: int, r: ComentarioRow) {
    r.comentarioPadreId == Some(padreId) && r.usuarioId in usuarios
  }

  /** The rows of the top-level query: comments of the dinosaur with no parent whose
      author exists (the inner join on `usuarios`), newest first. */
  function FilasRaiz(rows: seq<ComentarioRow>, usuarios: map<int, string>, dinosaurioId: int): (r: seq<ComentarioRow>)
    ensures |r| <= |rows|
  {
    SortBy(Filter(rows, (r: ComentarioRow) => EsRaiz(usuarios, dinosaurioId, r)), MasRecienteLe)
  }

  /** The top-level query returns exactly the top-level comments of the dinosaur
      whose author exists. */
  lemma FilasRaizIn(rows: seq<ComentarioRow>, usuarios: map<int, string>, dinosaurioId: int)
    ensures forall f :: f in FilasRaiz(rows, usuarios, dinosaurioId) <==> f in rows && EsRaiz(usuarios, dinosaurioId, f)
  {
    var p := (r: ComentarioRow) => EsRaiz(usuarios, dinosaurioId, r);
    FilterIn(rows, p);
    SortByPermutation(Filter(rows, p), MasRecienteLe);
  }

  /** The rows of the reply query: comments whose parent is `padreId`, of any
      dinosaur, whose author exists, oldest first. */
  function FilasRespuesta(rows: seq<ComentarioRow>, usuarios: map<int, string>, padreId: int): (r: seq<ComentarioRow>)
    ensures |r| <= |rows|
  {
    SortBy(Filter(rows, (r: ComentarioRow) => EsRespuesta(usuarios, padreId, r)), MasAntiguoLe)
  }

  /** The reply query returns exactly the replies to `padreId` whose author exists. */
  lemma FilasRespuestaIn(rows: seq<ComentarioRow>, usuarios: map<int, string>, padreId: int)
    ensures forall f :: f in FilasRespuesta(rows, usuarios, padreId) <==> f in rows && EsRespuesta(usuarios, padreId, f)
  {
    var p := (r: ComentarioRow) => EsRespuesta(usuarios, padreId, r);
    FilterIn(rows, p);
    SortByPermutation(Filter(rows, p), MasAntiguoLe);
  }

  /** The `Comentario` built from a joined row, with its vote fields filled in and no replies. */
  function Vista(usuarios: map<int, string>, votos: map<VotoKey, string>, r: ComentarioRow, usuarioId: Option<int>): ComentarioVista {
    var v := VotosDe(votos, r.id, usuarioId);
    ComentarioVista(r.id, r.dinosaurioId, r.usuarioId, r.contenido, Some(r.fechaCreacion), r.comentarioPadreId,
                    if r.usuarioId in usuarios then Some(usuarios[r.usuarioId]) else None,
                    r.fechaModificacion, v.positivos, v.negativos, v.votoUsuario, [])
  }

  /** The comments built from the joined rows `fs`, in the same order, without replies. */
  function Vistas(usuarios: map<int, string>, votos: map<VotoKey, string>, fs: seq<ComentarioRow>,
                  usuarioId: Option<int>): (vs: seq<ComentarioVista>)
    ensures |vs| == |fs|
  {
    if fs == [] then [] else [Vista(usuarios, votos, fs[0], usuarioId)] + Vistas(usuarios, votos, fs[1..], usuarioId)
  }

  /** Each row of `fs` gives the comment at its own position. */
  lemma {:induction false} VistasEn(usuarios: map<int, string>, votos: map<VotoKey, string>, fs: seq<ComentarioRow>,
                                    usuarioId: Option<int>)
    ensures forall i :: 0 <= i < |fs| ==> Vistas(usuarios, votos, fs, usuarioId)[i] == Vista(usuarios, votos, fs[i], usuarioId)
  {
    if fs != [] {
      VistasEn(usuarios, votos, fs[1..], usuarioId);
    }
  }

  /** What `get_respuestas` returns. */
  function Respuestas(rows: seq<ComentarioRow>, usuarios: map<int, string>, votos: map<VotoKey, string>,
                      padreId: int, usuarioId: Option<int>): seq<ComentarioVista>
  {
    Vistas(usuarios, votos, FilasRespuesta(rows, usuarios, padreId), usuarioId)
  }

  /** What `get_by_dinosaurio` returns: each top-level comment with its direct replies. */
  function Arbol(rows: seq<ComentarioRow>, usuarios: map<int, string>, votos: map<VotoKey, string>,
                 dinosaurioId: int, usuarioId: Option<int>): seq<ComentarioVista>
  {
    VistasRaiz(rows, usuarios, votos, FilasRaiz(rows, usuarios, dinosaurioId), usuarioId)
  }

  /** The top-level comments built from the rows `fs`, in the same order. */
  function VistasRaiz(rows: seq<ComentarioRow>, usuarios: map<int, string>, votos: map<VotoKey, string>,
                      fs: seq<ComentarioRow>, usuarioId: Option<int>): (vs: seq<ComentarioVista>)
    ensures |vs| == |fs|
  {
    if fs == [] then []
    else [VistaRaiz(rows, usuarios, votos, fs[0], usuarioId)] + VistasRaiz(rows, usuarios, votos, fs[1..], usuarioId)
  }

  /** The row at position `i` of `fs` gives the top-level comment at that position. */
  lemma {:induction false} VistasRaizEn(rows: seq<ComentarioRow>, usuarios: map<int, string>, votos: map<VotoKey, string>,
                                        fs: seq<ComentarioRow>, usuarioId: Option<int>, i: nat)
    requires i < |fs|
    ensures VistasRaiz(rows, usuarios, votos, fs, usuarioId)[i] == VistaRaiz(rows, usuarios, votos, fs[i], usuarioId)
  {
    if i > 0 {
      VistasRaizEn(rows, usuarios, votos, fs[1..], usuarioId, i - 1);
    }
  }

  /** Each row of `fs` gives the top-level comment at its own position. */
  lemma VistasRaizTodas(rows: seq<ComentarioRow>, usuarios: map<int, string>, votos: map<VotoKey, string>,
                        fs: seq<ComentarioRow>, usuarioId: Option<int>)
    ensures forall i :: 0 <= i < |fs| ==>
      VistasRaiz(rows, usuarios, votos, fs, usuarioId)[i] == VistaRaiz(rows, usuarios, votos, fs[i], usuarioId)
  {
    forall i | 0 <= i < |fs|
      ensures VistasRaiz(rows, usuarios, votos, fs, usuarioId)[i] == VistaRaiz(rows, usuarios, votos, fs[i], usuarioId)
    {
      VistasRaizEn(rows, usuarios, votos, fs, usuarioId, i);
    }
  }

  /** A top-level comment as `get_by_dinosaurio` returns it: with its direct replies. */
  function VistaRaiz(rows: seq<ComentarioRow>, usuarios: map<int, string>, votos: map<VotoKey, string>,
                     f: ComentarioRow, usuarioId: Option<int>): ComentarioVista
  {
    Vista(usuarios, votos, f, usuarioId).(respuestas := Respuestas(rows, usuarios, votos, f.id, usuarioId))
  }

  /** The construction both queries repeat for each joined row: a new `Comentario`
      with the row's fields and the author's name, then its vote fields overwritten
      with what `get_votos` reports. */
  method NuevoComentario(db: Database, f: ComentarioRow, usuarioId: Option<int>) returns (c: Comentario)
    requires f.usuarioId in db.usuarios
    ensures fresh(c) && c.Nodo() == Vista(db.usuarios, db.votos, f, usuarioId) && c.respuestas == []
  {
    c := new Comentario(f.id, f.dinosaurioId, f.usuarioId, f.contenido, Some(f.fechaCreacion),
                        f.comentarioPadreId, Some(db.usuarios[f.usuarioId]), f.fechaModificacion);
    var votos := GetVotos(db, c.id, usuarioId);
    c.votosPositivos := votos.positivos;
    c.votosNegativos := votos.negativos;
    c.votoUsuario := votos.votoUsuario;
  }

  /** `get_respuestas`: builds one new `Comentario` per reply row, oldest first,
      each with its votes and an empty list of replies. */
  method GetRespuestas(db: Database, comentarioPadreId: int, usuarioId: Option<int>) returns (rs: seq<Comentario>)
    ensures var esperado := Respuestas(db.comentarios, db.usuarios, db.votos, comentarioPadreId, usuarioId);
      && |rs| == |esperado|
      && forall i :: 0 <= i < |rs| ==> fresh(rs[i]) && rs[i].Nodo() == esperado[i] && rs[i].respuestas == []
  {
    var filas := FilasRespuesta(db.comentarios, db.usuarios, comentarioPadreId);
    FilasRespuestaIn(db.comentarios, db.usuarios, comentarioPadreId);
    assert forall j :: 0 <= j < |filas| ==> filas[j] in filas;
    VistasEn(db.usuarios, db.votos, filas, usuarioId);
    rs := ConstruirRespuestas(db, filas, usuarioId);
  }

  /** The loop of `get_respuestas` over the rows `filas` of its query. */
  method ConstruirRespuestas(db: Database, filas: seq<ComentarioRow>, usuarioId: Option<int>) returns (rs: seq<Comentario>)
    requires forall j :: 0 <= j < |filas| ==> filas[j].usuarioId in db.usuarios
    ensures |rs| == |filas|
    ensures forall i :: 0 <= i < |rs| ==>
      fresh(rs[i]) && rs[i].Nodo() == Vista(db.usuarios, db.votos, filas[i], usuarioId) && rs[i].respuestas == []
  {
    ghost var usuarios, votos := db.usuarios, db.votos;
    rs := [];
    var i := 0;
    while i < |filas|
      invariant 0 <= i <= |filas| && |rs| == i
      invariant forall j :: 0 <= j < i ==>
        fresh(rs[j]) && rs[j].Nodo() == Vista(usuarios, votos, filas[j], usuarioId) && rs[j].respuestas == []
    {
      var respuesta := NuevoComentario(db, filas[i], usuarioId);
      rs := rs + [respuesta];
      i := i + 1;
    }
  }

  /** The body of the loop of `get_by_dinosaurio`: a new `Comentario` for a top-level
      row, with its votes and its replies; `v` is the top-level comment the row gives. */
  method NuevaRaiz(db: Database, f: ComentarioRow, usuarioId: Option<int>, ghost v: ComentarioVista) returns (c: Comentario)
    requires f.usuarioId in db.usuarios
    requires v == VistaRaiz(db.comentarios, db.usuarios, db.votos, f, usuarioId)
    ensures fresh(c) && fresh(c.respuestas)
    ensures c.Arbol() == v && c.UnNivel()
  {
    c := NuevoComentario(db, f, usuarioId);
    var respuestas := GetRespuestas(db, c.id, usuarioId);
    c.respuestas := respuestas;
    NodosDe(respuestas, Respuestas(db.comentarios, db.usuarios, db.votos, f.id, usuarioId));
  }

  /** The loop of `get_by_dinosaurio` over the rows `filas` of its query, whose
      top-level comments are `esperado`. */
  method ConstruirRaices(db: Database, filas: seq<ComentarioRow>, usuarioId: Option<int>, ghost esperado: seq<ComentarioVista>)
    returns (cs: seq<Comentario>)
    requires |esperado| == |filas|
    requires forall j :: 0 <= j < |filas| ==> filas[j].usuarioId in db.usuarios
    requires forall j {:trigger VistaRaiz(db.comentarios, db.usuarios, db.votos, filas[j], usuarioId)} :: 0 <= j < |filas| ==>
      esperado[j] == VistaRaiz(db.comentarios, db.usuarios, db.votos, filas[j], usuarioId)
    ensures |cs| == |filas|
    ensures forall i :: 0 <= i < |cs| ==> fresh(cs[i]) && fresh(cs[i].respuestas)
    ensures forall i :: 0 <= i < |cs| ==> cs[i].Arbol() == esperado[i] && cs[i].UnNivel()
  {
    cs := [];
    var i := 0;
    while i < |filas|
      invariant 0 <= i <= |filas| && |cs| == i
      invariant forall j :: 0 <= j < i ==>
        fresh(cs[j]) && fresh(cs[j].respuestas) && cs[j].UnNivel() && cs[j].Arbol() == esperado[j]
    {
      var comentario := NuevaRaiz(db, filas[i], usuarioId, esperado[i]);
      cs := cs + [comentario];
      i := i + 1;
    }
  }

  /** `get_by_dinosaurio`: builds one new `Comentario` per top-level row, newest
      first, each with its votes and the replies `get_respuestas` returns for it. */
  method GetByDinosaurio(db: Database, dinosaurioId: int, usuarioId: Option<int>) returns (cs: seq<Comentario>)
    ensures var esperado := Arbol(db.comentarios, db.usuarios, db.votos, dinosaurioId, usuarioId);
      && |cs| == |esperado|
      && forall i :: 0 <= i < |cs| ==> cs[i].Arbol() == esperado[i]
    ensures forall i :: 0 <= i < |cs| ==> fresh(cs[i]) && fresh(cs[i].respuestas) && cs[i].UnNivel()
  {
    var filas := FilasRaiz(db.comentarios, db.usuarios, dinosaurioId);
    FilasRaizIn(db.comentarios, db.usuarios, dinosaurioId);
    assert forall j :: 0 <= j < |filas| ==> filas[j] in filas;
    VistasRaizTodas(db.comentarios, db.usuarios, db.votos, filas, usuarioId);
    cs := ConstruirRaices(db, filas, usuarioId, VistasRaiz(db.comentarios, db.usuarios, db.votos, filas, usuarioId));
  }

  // ---------------------------------------------------------------------------
  // What the tree contains

  /** Each top-level comment of `get_by_dinosaurio` carries the replies
      `get_respuestas` gives for its id. */
  lemma ArbolEn(rows: seq<ComentarioRow>, usuarios: map<int, string>, votos: map<VotoKey, string>,
                dinosaurioId: int, usuarioId: Option<int>, i: nat)
    requires i < |Arbol(rows, usuarios, votos, dinosaurioId, usuarioId)|
    ensures var f := FilasRaiz(rows, usuarios, dinosaurioId)[i];
      && f in rows && EsRaiz(usuarios, dinosaurioId, f)
      && Arbol(rows, usuarios, votos, dinosaurioId, usuarioId)[i]
         == Vista(usuarios, votos, f, usuarioId).(respuestas := Respuestas(rows, usuarios, votos, f.id, usuarioId))
  {
    var fs := FilasRaiz(rows, usuarios, dinosaurioId);
    FilasRaizIn(rows, usuarios, dinosaurioId);
    VistasRaizEn(rows, usuarios, votos, fs, usuarioId, i);
    assert fs[i] in fs;
  }

  /** The comments `get_by_dinosaurio` returns are exactly the top-level comments of
      the dinosaur whose author exists, each with its author's name. */
  lemma ArbolSoloRaices(rows: seq<ComentarioRow>, usuarios: map<int, string>, votos: map<VotoKey, string>,
                        dinosaurioId: int, usuarioId: Option<int>)
    ensures var a := Arbol(rows, usuarios, votos, dinosaurioId, usuarioId);
      forall i :: 0 <= i < |a| ==>
        && a[i].dinosaurioId == dinosaurioId && a[i].comentarioPadreId.None?
        && a[i].usuarioId in usuarios && a[i].usuarioNombre == Some(usuarios[a[i].usuarioId])
        && exists f :: f in rows && f.id == a[i].id && EsRaiz(usuarios, dinosaurioId, f)
    ensures var a := Arbol(rows, usuarios, votos, dinosaurioId, usuarioId);
      forall f :: f in rows && EsRaiz(usuarios, dinosaurioId, f) ==> exists i :: 0 <= i < |a| && a[i].id == f.id
  {
    var a := Arbol(rows, usuarios, votos, dinosaurioId, usuarioId);
    var fs := FilasRaiz(rows, usuarios, dinosaurioId);
    forall i | 0 <= i < |a|
      ensures && a[i].dinosaurioId == dinosaurioId && a[i].comentarioPadreId.None?
              && a[i].usuarioId in usuarios && a[i].usuarioNombre == Some(usuarios[a[i].usuarioId])
              && exists f :: f in rows && f.id == a[i].id && EsRaiz(usuarios, dinosaurioId, f)
    {
      ArbolEn(rows, usuarios, votos, dinosaurioId, usuarioId, i);
    }
    FilasRaizIn(rows, usuarios, dinosaurioId);
    forall f | f in rows && EsRaiz(usuarios, dinosaurioId, f)
      ensures exists i :: 0 <= i < |a| && a[i].id == f.id
    {
      var i :| 0 <= i < |fs| && fs[i] == f;
      ArbolEn(rows, usuarios, votos, dinosaurioId, usuarioId, i);
    }
  }

  /** The top-level query's rows are in `fecha_creacion DESC` order. */
  lemma FilasRaizOrdenadas(rows: seq<ComentarioRow>, usuarios: map<int, string>, dinosaurioId: int)
    ensures SortedBy(FilasRaiz(rows, usuarios, dinosaurioId), MasRecienteLe)
  {
    SortBySorted(Filter(rows, (r: ComentarioRow) => EsRaiz(usuarios, dinosaurioId, r)), MasRecienteLe);
  }

  /** The reply query's rows are in `fecha_creacion ASC` order. */
  lemma FilasRespuestaOrdenadas(rows: seq<ComentarioRow>, usuarios: map<int, string>, padreId: int)
    ensures SortedBy(FilasRespuesta(rows, usuarios, padreId), MasAntiguoLe)
  {
    SortBySorted(Filter(rows, (r: ComentarioRow) => EsRespuesta(usuarios, padreId, r)), MasAntiguoLe);
  }

  /** The top-level comments come newest first. */
  lemma ArbolMasRecientePrimero(rows: seq<ComentarioRow>, usuarios: map<int, string>, votos: map<VotoKey, string>,
                                dinosaurioId: int, usuarioId: Option<int>, i: nat, j: nat)
    requires i < j < |Arbol(rows, usuarios, votos, dinosaurioId, usuarioId)|
    ensures var a := Arbol(rows, usuarios, votos, dinosaurioId, usuarioId);
      a[i].fechaCreacion.Some? && a[j].fechaCreacion.Some? && a[i].fechaCreacion.value >= a[j].fechaCreacion.value
  {
    var fs := FilasRaiz(rows, usuarios, dinosaurioId);
    FilasRaizOrdenadas(rows, usuarios, dinosaurioId);
    ArbolEn(rows, usuarios, votos, dinosaurioId, usuarioId, i);
    ArbolEn(rows, usuarios, votos, dinosaurioId, usuarioId, j);
    assert MasRecienteLe(fs[i], fs[j]);
  }

  /** The row behind each reply `get_respuestas` returns for `padreId`. */
  lemma RespuestasEn(rows: seq<ComentarioRow>, usuarios: map<int, string>, votos: map<VotoKey, string>,
                     padreId: int, usuarioId: Option<int>, k: nat)
    requires k < |Respuestas(rows, usuarios, votos, padreId, usuarioId)|
    ensures var g := FilasRespuesta(rows, usuarios, padreId)[k];
      && g in rows && EsRespuesta(usuarios, padreId, g)
      && Respuestas(rows, usuarios, votos, padreId, usuarioId)[k] == Vista(usuarios, votos, g, usuarioId)
  {
    var gs := FilasRespuesta(rows, usuarios, padreId);
    FilasRespuestaIn(rows, usuarios, padreId);
    VistasEn(usuarios, votos, gs, usuarioId);
    assert gs[k] in gs;
  }

  /** Every reply `get_respuestas` returns is a direct reply to `padreId` whose author
      exists, of any dinosaur, and carries no replies of its own. */
  lemma RespuestasDirectas(rows: seq<ComentarioRow>, usuarios: map<int, string>, votos: map<VotoKey, string>,
                           padreId: int, usuarioId: Option<int>, k: nat)
    requires k < |Respuestas(rows, usuarios, votos, padreId, usuarioId)|
    ensures var rk := Respuestas(rows, usuarios, votos, padreId, usuarioId)[k];
      && rk.comentarioPadreId == Some(padreId) && rk.respuestas == []
      && rk.usuarioId in usuarios && rk.usuarioNombre == Some(usuarios[rk.usuarioId])
      && exists g :: g in rows && g.id == rk.id && EsRespuesta(usuarios, padreId, g)
  {
    RespuestasEn(rows, usuarios, votos, padreId, usuarioId, k);
  }

  /** Every direct reply to `padreId` whose author exists is returned. */
  lemma RespuestasCompletas(rows: seq<ComentarioRow>, usuarios: map<int, string>, votos: map<VotoKey, string>,
                            padreId: int, usuarioId: Option<int>, g: ComentarioRow)
    requires g in rows && EsRespuesta(usuarios, padreId, g)
    ensures var rs := Respuestas(rows, usuarios, votos, padreId, usuarioId);
      exists k :: 0 <= k < |rs| && rs[k].id == g.id
  {
    var gs := FilasRespuesta(rows, usuarios, padreId);
    FilasRespuestaIn(rows, usuarios, padreId);
    var k :| 0 <= k < |gs| && gs[k] == g;
    RespuestasEn(rows, usuarios, votos, padreId, usuarioId, k);
  }

  /** The replies come oldest first. */
  lemma RespuestasMasAntiguaPrimero(rows: seq<ComentarioRow>, usuarios: map<int, string>, votos: map<VotoKey, string>,
                                    padreId: int, usuarioId: Option<int>, k: nat, l: nat)
    requires k < l < |Respuestas(rows, usuarios, votos, padreId, usuarioId)|
    ensures var rs := Respuestas(rows, usuarios, votos, padreId, usuarioId);
      rs[k].fechaCreacion.Some? && rs[l].fechaCreacion.Some? && rs[k].fechaCreacion.value <= rs[l].fechaCreacion.value
  {
    var gs := FilasRespuesta(rows, usuarios, padreId);
    FilasRespuestaOrdenadas(rows, usuarios, padreId);
    RespuestasEn(rows, usuarios, votos, padreId, usuarioId, k);
    RespuestasEn(rows, usuarios, votos, padreId, usuarioId, l);
    assert MasAntiguoLe(gs[k], gs[l]);
  }

  /** The tree is two levels deep: a reply to a reply shows up neither as a top-level
      comment nor under any top-level comment. */
  lemma RespuestaAnidadaOculta(rows: seq<ComentarioRow>, usuarios: map<int, string>, votos: map<VotoKey, string>,
                               dinosaurioId: int, usuarioId: Option<int>, r: ComentarioRow, q: ComentarioRow)
    requires IdsCrecientes(rows)
    requires r in rows && q in rows && q.comentarioPadreId.Some? && r.comentarioPadreId == Some(q.id)
    ensures var a := Arbol(rows, usuarios, votos, dinosaurioId, usuarioId);
      forall i :: 0 <= i < |a| ==>
        a[i].id != r.id && forall k :: 0 <= k < |a[i].respuestas| ==> a[i].respuestas[k].id != r.id
  {
    var a := Arbol(rows, usuarios, votos, dinosaurioId, usuarioId);
    var fs := FilasRaiz(rows, usuarios, dinosaurioId);
    forall i | 0 <= i < |a|
      ensures a[i].id != r.id && forall k :: 0 <= k < |a[i].respuestas| ==> a[i].respuestas[k].id != r.id
    {
      ArbolEn(rows, usuarios, votos, dinosaurioId, usuarioId, i);
      var f := fs[i];
      if f.id == r.id {
        IdUnico(rows, f, r);
      }
      forall k | 0 <= k < |a[i].respuestas|
        ensures a[i].respuestas[k].id != r.id
      {
        RespuestasEn(rows, usuarios, votos, f.id, usuarioId, k);
        var g := FilasRespuesta(rows, usuarios, f.id)[k];
        if g.id == r.id {
          IdUnico(rows, g, r);
          IdUnico(rows, f, q);
        }
      }
    }
  }

  /** The reply query does not filter by dinosaur: a reply filed under another
      dinosaur still shows up under its top-level parent. */
  lemma RespuestaDeOtroDinosaurio(rows: seq<ComentarioRow>, usuarios: map<int, string>, votos: map<VotoKey, string>,
                                  dinosaurioId: int, usuarioId: Option<int>, f: ComentarioRow, g: ComentarioRow)
    requires f in rows && EsRaiz(usuarios, dinosaurioId, f)
    requires g in rows && EsRespuesta(usuarios, f.id, g) && g.dinosaurioId != dinosaurioId
    ensures var a := Arbol(rows, usuarios, votos, dinosaurioId, usuarioId);
      exists i, k :: 0 <= i < |a| && 0 <= k < |a[i].respuestas|
        && a[i].id == f.id && a[i].respuestas[k].id == g.id && a[i].respuestas[k].dinosaurioId != dinosaurioId
  {
    var a := Arbol(rows, usuarios, votos, dinosaurioId, usuarioId);
    var fs := FilasRaiz(rows, usuarios, dinosaurioId);
    FilasRaizIn(rows, usuarios, dinosaurioId);
    var i :| 0 <= i < |fs| && fs[i] == f;
    ArbolEn(rows, usuarios, votos, dinosaurioId, usuarioId, i);
    var gs := FilasRespuesta(rows, usuarios, f.id);
    FilasRespuestaIn(rows, usuarios, f.id);
    var k :| 0 <= k < |gs| && gs[k] == g;
    RespuestasEn(rows, usuarios, votos, f.id, usuarioId, k);
    assert a[i].respuestas[k].id == g.id;
  }

  // ---------------------------------------------------------------------------
  // Writes on the comment table

  /** Appending a row with a fresh id whose parent, if any, already exists keeps the
      table intact and every id below the next counter value. */
  lemma InsertarPreservaIntegridad(rows: seq<ComentarioRow>, siguiente: nat, fila: ComentarioRow)
    requires ComentariosIntegros(rows) && forall r :: r in rows ==> r.id < siguiente
    requires fila.id == siguiente
    requires fila.comentarioPadreId.Some? ==> ExisteComentario(rows, fila.comentarioPadreId.value)
    ensures ComentariosIntegros(rows + [fila])
    ensures forall r :: r in rows + [fila] ==> r.id < siguiente + 1
  {
    var nuevas := rows + [fila];
    forall i, j | 0 <= i < j < |nuevas| ensures nuevas[i].id < nuevas[j].id {
      if j == |rows| {
        assert nuevas[i] in rows;
      }
    }
    forall r | r in nuevas && r.comentarioPadreId.Some?
      ensures r.comentarioPadreId.value < r.id && ExisteComentario(nuevas, r.comentarioPadreId.value)
    {
      var q :| q in rows && q.id == r.comentarioPadreId.value;
      assert q in nuevas;
    }
  }

  /** `insertar_comentario`: inserts the comment's row with the next id, the current
      time as creation date and no edit date, and returns the new id; a parent id
      that names no comment is refused by the foreign key and nothing is written. */
  method InsertarComentario(db: Database, comentario: Comentario, ahora: int) returns (r: Result<nat>)
    requires db.ComentariosValidos()
    modifies db`comentarios, db`siguienteComentarioId
    ensures db.ComentariosValidos()
    ensures var padre := comentario.comentarioPadreId;
      if padre.Some? && !ExisteComentario(old(db.comentarios), padre.value) then
        && r == Err(ErrorClaveForanea)
        && db.comentarios == old(db.comentarios) && db.siguienteComentarioId == old(db.siguienteComentarioId)
      else
        && r == Ok(old(db.siguienteComentarioId))
        && db.siguienteComentarioId == old(db.siguienteComentarioId) + 1
        && db.comentarios == old(db.comentarios) + [ComentarioRow(old(db.siguienteComentarioId),
             comentario.dinosaurioId, comentario.usuarioId, comentario.contenido, ahora, padre, None)]
  {
    var padre := comentario.comentarioPadreId;
    if padre.Some? && !ExisteComentario(db.comentarios, padre.value) {
      return Err(ErrorClaveForanea);
    }
    var nuevoId := db.siguienteComentarioId;
    var fila := ComentarioRow(nuevoId, comentario.dinosaurioId, comentario.usuarioId, comentario.contenido,
                              ahora, padre, None);
    InsertarPreservaIntegridad(db.comentarios, nuevoId, fila);
    db.comentarios := db.comentarios + [fila];
    db.siguienteComentarioId := nuevoId + 1;
    r := Ok(nuevoId);
  }

  /** `UPDATE comentarios SET contenido = %s, fecha_modificacion = NOW() WHERE id = %s`. */
  function Editar(rows: seq<ComentarioRow>, id: int, contenido: string, ahora: int): (r: seq<ComentarioRow>)
    ensures |r| == |rows|
  {
    if rows == [] then []
    else
      var cabeza := if rows[0].id == id then rows[0].(contenido := contenido, fechaModificacion := Some(ahora))
                    else rows[0];
      [cabeza] + Editar(rows[1..], id, contenido, ahora)
  }

  /** The row with id `id` gets the new text and the edit date; every other row, and
      every other column, stays as it was. */
  lemma {:induction false} EditarEn(rows: seq<ComentarioRow>, id: int, contenido: string, ahora: int, i: nat)
    requires i < |rows|
    ensures var e := Editar(rows, id, contenido, ahora)[i];
      && e.id == rows[i].id && e.dinosaurioId == rows[i].dinosaurioId && e.usuarioId == rows[i].usuarioId
      && e.fechaCreacion == rows[i].fechaCreacion && e.comentarioPadreId == rows[i].comentarioPadreId
      && (rows[i].id == id ==> e.contenido == contenido && e.fechaModificacion == Some(ahora))
      && (rows[i].id != id ==> e == rows[i])
  {
    if i > 0 {
      EditarEn(rows[1..], id, contenido, ahora, i - 1);
    }
  }

  /** Editing keeps the table intact and every id below the counter; editing an id
      that names no comment changes nothing. */
  lemma EditarPreservaIntegridad(rows: seq<ComentarioRow>, siguiente: nat, id: int, contenido: string, ahora: int)
    requires ComentariosIntegros(rows) && forall r :: r in rows ==> r.id < siguiente
    ensures ComentariosIntegros(Editar(rows, id, contenido, ahora))
    ensures forall r :: r in Editar(rows, id, contenido, ahora) ==> r.id < siguiente
    ensures !ExisteComentario(rows, id) ==> Editar(rows, id, contenido, ahora) == rows
  {
    var e := Editar(rows, id, contenido, ahora);
    forall i | 0 <= i < |rows| ensures e[i].id == rows[i].id && e[i].comentarioPadreId == rows[i].comentarioPadreId {
      EditarEn(rows, id, contenido, ahora, i);
    }
    forall r | r in e ensures r.id < siguiente && (r.comentarioPadreId.Some? ==>
      r.comentarioPadreId.value < r.id && ExisteComentario(e, r.comentarioPadreId.value))
    {
      var i :| 0 <= i < |e| && e[i] == r;
      assert rows[i] in rows;
      if r.comentarioPadreId.Some? {
        var q :| q in rows && q.id == r.comentarioPadreId.value;
        var m :| 0 <= m < |rows| && rows[m] == q;
        assert e[m] in e;
      }
    }
    if !ExisteComentario(rows, id) {
      forall i | 0 <= i < |rows| ensures e[i] == rows[i] {
        EditarEn(rows, id, contenido, ahora, i);
        assert rows[i] in rows;
      }
    }
  }

  /** `actualizar_comentario`: the comment's text becomes `contenido` and its edit date
      the current time; a missing id updates nothing. */
  method ActualizarComentario(db: Database, id: int, contenido: string, ahora: int)
    requires db.ComentariosValidos()
    modifies db`comentarios
    ensures db.comentarios == Editar(old(db.comentarios), id, contenido, ahora)
    ensures db.ComentariosValidos()
  {
    EditarPreservaIntegridad(db.comentarios, db.siguienteComentarioId, id, contenido, ahora);
    db.comentarios := Editar(db.comentarios, id, contenido, ahora);
  }

  /** `borrar_comentario`: deletes the comment and, through the cascading foreign key,
      its replies at every depth; the table stays intact. */
  method BorrarComentario(db: Database, id: int)
    requires db.ComentariosValidos()
    modifies db`comentarios
    ensures db.comentarios == BorrarEnCascada(old(db.comentarios), id)
    ensures forall r :: r in db.comentarios <==> r in old(db.comentarios) && !Desciende(old(db.comentarios), r, id)
    ensures db.ComentariosValidos()
  {
    BorrarEnCascadaCorrecto(db.comentarios, id);
    db.comentarios := BorrarEnCascada(db.comentarios, id);
  }

  /** `contar_comentarios`: `SELECT COUNT(*) ... WHERE dinosaurio_id = %s`, counting replies
      too: the number of rows of the dinosaur. */
  function ContarComentarios(rows: seq<ComentarioRow>, dinosaurioId: int): (n: nat)
    ensures n <= |rows|
    ensures n == 0 <==> forall r :: r in rows ==> r.dinosaurioId != dinosaurioId
    ensures n == |rows| <==> forall r :: r in rows ==> r.dinosaurioId == dinosaurioId
  {
    if rows == [] then 0
    else (if rows[0].dinosaurioId == dinosaurioId then 1 else 0) + ContarComentarios(rows[1..], dinosaurioId)
  }

  /** The ids of the comments of a dinosaur. */
  function IdsDelDinosaurio(rows: seq<ComentarioRow>, dinosaurioId: int): set<int> {
    set r | r in rows && r.dinosaurioId == dinosaurioId :: r.id
  }

  /** The ids of a dinosaur's comments: the first row's, if it is one of them, and the rest's. */
  lemma IdsDelDinosaurioCabeza(rows: seq<ComentarioRow>, dinosaurioId: int)
    requires rows != []
    ensures IdsDelDinosaurio(rows, dinosaurioId)
         == (if rows[0].dinosaurioId == dinosaurioId then {rows[0].id} else {}) + IdsDelDinosaurio(rows[1..], dinosaurioId)
  {
    var cola := rows[1..];
    var antes := IdsDelDinosaurio(cola, dinosaurioId);
    var todos := IdsDelDinosaurio(rows, dinosaurioId);
    var propio := if rows[0].dinosaurioId == dinosaurioId then {rows[0].id} else {};
    assert rows == [rows[0]] + cola;
    forall x ensures x in todos <==> x in propio + antes {
      if x in todos {
        var r :| r in rows && r.dinosaurioId == dinosaurioId && r.id == x;
        if r != rows[0] {
          assert r in cola;
        }
      }
      if x in antes {
        var r :| r in cola && r.dinosaurioId == dinosaurioId && r.id == x;
        assert r in rows;
      }
    }
  }

  /** In a table keyed by id the count is the number of distinct comments of the dinosaur. */
  lemma {:induction false} ContarSinRepetidos(rows: seq<ComentarioRow>, dinosaurioId: int)
    requires IdsCrecientes(rows)
    ensures ContarComentarios(rows, dinosaurioId) == |IdsDelDinosaurio(rows, dinosaurioId)|
  {
    if rows != [] {
      CabezaMenor(rows);
      ContarSinRepetidos(rows[1..], dinosaurioId);
      IdsDelDinosaurioCabeza(rows, dinosaurioId);
      assert rows[0].id !in IdsDelDinosaurio(rows[1..], dinosaurioId);
    }
  }

  /** The count splits into the dinosaur's top-level comments and its replies. */
  lemma {:induction false} ContarRaicesYRespuestas(rows: seq<ComentarioRow>, dinosaurioId: int)
    ensures ContarComentarios(rows, dinosaurioId)
         == |Filter(rows, (r: ComentarioRow) => r.dinosaurioId == dinosaurioId && r.comentarioPadreId.None?)|
          + |Filter(rows, (r: ComentarioRow) => r.dinosaurioId == dinosaurioId && r.comentarioPadreId.Some?)|
  {
    if rows != [] {
      ContarRaicesYRespuestas(rows[1..], dinosaurioId);
    }
  }
}
