/** domain/model/Comentario.py: a comment as the repository hands it to the pages.
    It is a mutable record: the repository overwrites its vote fields and its list
    of replies after building it. */
module ComentarioModelo {
  import opened Wrappers

  /** The contents of a `Comentario` object as a value, with its replies. */
  datatype ComentarioVista = ComentarioVista(
    id: int,
    dinosaurioId: int,
    usuarioId: int,
    contenido: string,
    fechaCreacion: Option<int>,
    comentarioPadreId: Option<int>,
    usuarioNombre: Option<string>,
    fechaModificacion: Option<int>,
    votosPositivos: int,
    votosNegativos: int,
    votoUsuario: Option<string>,
    respuestas: seq<ComentarioVista>)

  class Comentario {
    var id: int
    var dinosaurioId: int
    var usuarioId: int
    var contenido: string
    var fechaCreacion: Option<int>
    var comentarioPadreId: Option<int>
    var usuarioNombre: Option<string>
    var fechaModificacion: Option<int>
    var votosPositivos: int
    var votosNegativos: int
    var votoUsuario: Option<string>
    var respuestas: seq<Comentario>

    /** Every argument lands unchanged in the field of the same name; the list of
        replies starts empty whatever the arguments; by default a comment has no
        votes, no viewer vote, no edit date and no parent. */
    constructor (id: int, dinosaurioId: int, usuarioId: int, contenido: string,
                 fechaCreacion: Option<int> := None, comentarioPadreId: Option<int> := None,
                 usuarioNombre: Option<string> := None, fechaModificacion: Option<int> := None,
                 votosPositivos: int := 0, votosNegativos: int := 0,
                 votoUsuario: Option<string> := None)
      ensures this.id == id && this.dinosaurioId == dinosaurioId && this.usuarioId == usuarioId
      ensures this.contenido == contenido && this.fechaCreacion == fechaCreacion
      ensures this.comentarioPadreId == comentarioPadreId && this.usuarioNombre == usuarioNombre
      ensures this.fechaModificacion == fechaModificacion
      ensures this.votosPositivos == votosPositivos && this.votosNegativos == votosNegativos
      ensures this.votoUsuario == votoUsuario
      ensures this.respuestas == []
    {
      this.id := id;
      this.dinosaurioId := dinosaurioId;
      this.usuarioId := usuarioId;
      this.contenido := contenido;
      this.fechaCreacion := fechaCreacion;
      this.fechaModificacion := fechaModificacion;
      this.comentarioPadreId := comentarioPadreId;
      this.usuarioNombre := usuarioNombre;
      this.votosPositivos := votosPositivos;
      this.votosNegativos := votosNegativos;
      this.votoUsuario := votoUsuario;
      this.respuestas := [];
    }

    /** None of this comment's replies has replies of its own. */
    ghost predicate UnNivel()
      reads this, respuestas
    {
      forall k :: 0 <= k < |respuestas| ==> respuestas[k].respuestas == []
    }

    /** This object's own fields, its replies left out. */
    ghost function Nodo(): ComentarioVista
      reads this
    {
      ComentarioVista(id, dinosaurioId, usuarioId, contenido, fechaCreacion, comentarioPadreId,
                      usuarioNombre, fechaModificacion, votosPositivos, votosNegativos,
                      votoUsuario, [])
    }

    /** This object with the fields of each of its replies. */
    ghost function Arbol(): ComentarioVista
      reads this, respuestas
    {
      Nodo().(respuestas := Nodos(respuestas))
    }
  }

  /** The own fields of each object of `cs`, in order. */
  ghost function Nodos(cs: seq<Comentario>): (vs: seq<ComentarioVista>)
    reads cs
    ensures |vs| == |cs|
  {
    if cs == [] then [] else [cs[0].Nodo()] + Nodos(cs[1..])
  }

  /** `Nodos(cs)` is the sequence of views that agrees with each object's own fields. */
  lemma {:induction false} NodosDe(cs: seq<Comentario>, vs: seq<ComentarioVista>)
    requires |cs| == |vs| && forall i :: 0 <= i < |cs| ==> cs[i].Nodo() == vs[i]
    ensures Nodos(cs) == vs
  {
    if cs != [] {
      NodosDe(cs[1..], vs[1..]);
    }
  }
}
