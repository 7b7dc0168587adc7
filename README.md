# Dinosaur catalogue: comments, votes, sessions and catalogue queries in Dafny

This project models the core of a FastAPI web catalogue of dinosaurs (with their
eras, regions and habitats). It covers:

- the comment subsystem of a dinosaur's page: top-level comments, replies and a
  vote ledger;
- the author-or-admin gate that guards editing and deleting a comment;
- the session and authentication decisions;
- the optional filters and ordering of the four catalogue repositories;
- the reconciliation of a dinosaur's habitat links and the image-path rules of the
  dinosaur forms;
- the two SQL migration scripts that split a `.sql` file into statements.

The database is an object `Store.Database` whose fields are the tables:

- comments, dinosaurs, habitats, regions and eras are sequences of rows in
  insertion (id) order;
- the vote table is a map keyed by (comment, user), so a pair holds at most one
  vote;
- the dinosaur–habitat link table is a set of pairs.

Each `SELECT` becomes a function on those tables. The repository methods build
their results step by step, as the Python does, and are proved equal to those
functions. The lemmas then state what the functions mean: membership, order, the
reply tree, vote counts and set reconciliation.

Modules, one per source file:

| module | source |
|---|---|
| `ComentarioModelo` | `domain/model/Comentario.py` |
| `UsuarioModelo` | `domain/model/Usuario.py` |
| `Sesion` | `utils/session.py` |
| `Dependencias` | `utils/dependencies.py` |
| `ComentarioRepositorio` | `data/comentario_repository.py` |
| `ComentariosRouter` | `routers/comentarios_router.py` |
| `DinosaurioRepositorio` | `data/dinosaurio_repository.py` |
| `HabitatRepositorio` | `data/habitat_repository.py` |
| `RegionRepositorio` | `data/region_repository.py` |
| `EraRepositorio` | `data/era_repository.py` |
| `DinosauriosRouter` | `routers/dinosaurios_router.py` |
| `GuionSql` | the split, strip and skip step both migration scripts share |
| `MigracionEdicionVotos` | `migrate_edit_and_votes.py` |
| `EjecucionMigraciones` | `run_migrations.py` |

Support modules: `Wrappers` (Option and Result), `Text` (Python's `str.strip`,
`split`, `join`, `replace`, `int()` and `str()` on integers), `Sorting` (stable
`ORDER BY` as an insertion sort), `Tables` (filter and lookup by id), `Catalogo`
(the catalogue records), `Consultas` (Python truthiness of the optional filters;
`LIKE '%t%'` as substring containment) and `Store`.

The code and its written design disagree in a few places; the model follows the
code:

- Posting a comment does not check that the content is non-empty.
  `ComentariosRouter.CrearComentario` stores empty content as given.
- An unknown vote kind is not reported as invalid input. The handler silently
  redirects and writes nothing.
- A missing comment and a denied edit or delete are not kept apart. Both end in
  the same redirect with no write (`ComentariosRouter.ActualizarComentarioHandler`,
  `ComentariosRouter.BorrarComentarioHandler`).

## Model

| member | source | states |
|---|---|---|
| `ComentarioModelo.Comentario.constructor` | domain/model/Comentario.py:2-17 | every argument is stored in the field of the same name; by default the vote counts are 0 and the viewer's vote, parent and edit date are None, so a default comment is top-level and unedited; `respuestas` always starts empty |
| `UsuarioModelo.UsuarioPorDefecto` | domain/model/Usuario.py:2-8 | a user built from id, username and hash only keeps them, has no e-mail, is active, has role "usuario" and so is not an admin |
| `UsuarioModelo.EsAdminSoloPorRol` | domain/model/Usuario.py:10-11 | `es_admin` holds iff the role is "admin"; the username "admin" alone does not make one |
| `Sesion.CrearSesion` | utils/session.py:8-14 | the session afterwards is the old one with `user_id` and `id` set to the user id, plus `username`, `rol` and `authenticated = True` |
| `Sesion.ObtenerSesion` | utils/session.py:17-27 | a user is returned iff the session is non-empty and `authenticated` is truthy; that user's fields are the session's `user_id`, `id`, `username` and `rol` |
| `Sesion.SesionIdaYVuelta` | utils/session.py:8-27 | round trip: reading a session just created gives back exactly the id (twice), name and role that were stored |
| `Sesion.DestruirSesion` | utils/session.py:30-32 | the session afterwards is empty |
| `Sesion.UsuarioAutenticado` | utils/session.py:35-38 | true iff the session is non-empty and its `authenticated` flag is truthy |
| `Sesion.SesionDestruida` | utils/session.py:30-38 | after the session is cleared, no user is read from it and nobody is authenticated |
| `Sesion.SinBanderaNoHayUsuario` | utils/session.py:19-20 | a session without the `authenticated` flag, or with it False, authenticates nobody whatever else it holds |
| `Sesion.ObtenerUsuarioActual` | utils/session.py:41-63 | if the database knows the session's user as inactive, the session is destroyed and None is returned; in every other case, including a missing user and a failed lookup, the session's user is returned and the session is unchanged |
| `Sesion.UsuarioActualSinBaja` | utils/session.py:59-63 | a user missing from the database, or a lookup that fails, leaves the session's user as the current user |
| `Sesion.UsuarioActualTrasLogin` | utils/session.py:41-63 | after logging in an active user, the current user is that user's id, name and role |
| `Sesion.UsuarioInactivoRechazado` | utils/session.py:55-58 | after logging in a user the database marks inactive, there is no current user |
| `Dependencias.DecidirAuth` | utils/dependencies.py:6-15 | no current user iff redirect to login; otherwise the user is admitted unchanged; never forbidden |
| `Dependencias.DecidirAuthAdmin` | utils/dependencies.py:18-35 | redirect iff there is no user; admitted iff there is a user whose role or username is "admin", and then unchanged; forbidden iff there is a user who is neither |
| `Dependencias.RequireAuth` | utils/dependencies.py:6-15 | the dependency's decision is `DecidirAuth` of the user `obtener_usuario_actual` reads from the session as it was on entry |
| `Dependencias.RequireAuthAdmin` | utils/dependencies.py:18-35 | the dependency's decision is `DecidirAuthAdmin` of the user `obtener_usuario_actual` reads from the session as it was on entry |
| `Dependencias.AdminImplicaAuth` | utils/dependencies.py:18-35 | whoever passes the admin dependency passes the plain one with the same outcome |
| `Dependencias.AdminPorNombre` | utils/dependencies.py:29 | a user named "admin" with role "usuario" is admitted as admin although their role is not admin |
| `Dependencias.NoAdminProhibido` | utils/dependencies.py:29-33 | a logged-in user who is neither role- nor name-admin gets 403, never the login redirect |
| `Dependencias.LoginAdmitido` | utils/dependencies.py:6-15 | right after `crear_sesion` for a user not known as inactive, `require_auth` admits exactly that user |
| `ComentarioRepositorio.GetVotos` | data/comentario_repository.py:115-153 | the result is the tally of the ledger: the number of "positivo" votes and of "negativo" votes on the comment, and the viewer's stored vote when the viewer id is truthy and the viewer voted, else None |
| `ComentarioRepositorio.GrupoDeTipo` | data/comentario_repository.py:120-134 | the `GROUP BY` rows the loop reads give each kind its true count, and every kind with a vote has a row, so the loop's reading order does not matter |
| `ComentarioRepositorio.SinVotos` | data/comentario_repository.py:128-137 | a comment with no vote rows reports 0 positive, 0 negative and no viewer vote |
| `ComentarioRepositorio.OtroTipoIgnorado` | data/comentario_repository.py:130-134 | adding a vote of any kind other than "positivo" or "negativo" changes neither count |
| `ComentarioRepositorio.VotoPropio` | data/comentario_repository.py:137-146 | after user u (u not 0) votes t, u sees t as their own vote |
| `ComentarioRepositorio.AgregarVoto` | data/comentario_repository.py:155-181 | afterwards the pair (comment, user) holds exactly the new kind, whether a row existed or not; every other pair's vote is unchanged |
| `ComentarioRepositorio.EliminarVoto` | data/comentario_repository.py:183-191 | the pair's vote is removed if present, nothing happens otherwise, and no other vote changes |
| `ComentarioRepositorio.VotosTipoTrasVotar` | data/comentario_repository.py:155-181 | after an upsert, the votes of a kind on a comment are the old ones without the pair, plus the pair if the new kind is that kind on that comment |
| `ComentarioRepositorio.CuentaTrasVotar` | data/comentario_repository.py:155-181 | an upsert moves a count by at most one: minus one for the pair's old kind, plus one for its new kind, on that comment only |
| `ComentarioRepositorio.CuentaTrasRetirar` | data/comentario_repository.py:183-191 | a retraction lowers only the count of the pair's old kind on that comment, by one, and only if the pair had voted |
| `ComentarioRepositorio.PositivoLuegoNegativo` | data/comentario_repository.py:155-181 | on a comment without votes, voting positive and then negative leaves 0 positive, 1 negative, viewer vote "negativo" |
| `ComentarioRepositorio.RetirarDeshaceVotar` | data/comentario_repository.py:174-191 | a first vote followed by its retraction restores the ledger exactly |
| `ComentarioRepositorio.FilasRaizIn` | data/comentario_repository.py:10-17 | the top-level query returns exactly the rows of the dinosaur with no parent whose author exists in `usuarios` |
| `ComentarioRepositorio.FilasRaizOrdenadas` | data/comentario_repository.py:10-17 | the top-level rows come newest first |
| `ComentarioRepositorio.FilasRespuestaIn` | data/comentario_repository.py:46-53 | the reply query returns exactly the rows whose parent is the given id and whose author exists, whatever their dinosaur |
| `ComentarioRepositorio.FilasRespuestaOrdenadas` | data/comentario_repository.py:46-53 | replies come oldest first |
| `ComentarioRepositorio.NuevoComentario` | data/comentario_repository.py:57-71 | the new object holds the row's fields and its author's name, its vote fields overwritten with `get_votos`, and no replies |
| `ComentarioRepositorio.GetRespuestas` | data/comentario_repository.py:43-75 | one fresh comment per reply row in query order, each equal to the row's view with its votes and with an empty reply list |
| `ComentarioRepositorio.ConstruirRespuestas` | data/comentario_repository.py:55-73 | the reply loop yields one new comment per row in row order, each the row's view with its votes and no replies of its own |
| `ComentarioRepositorio.NuevaRaiz` | data/comentario_repository.py:21-38 | a new top-level comment with a new reply list, whose tree is the row's view with its votes and the replies `get_respuestas` returns for its id, and none of whose replies has replies |
| `ComentarioRepositorio.ConstruirRaices` | data/comentario_repository.py:19-39 | the loop yields one new comment per top-level row, the i-th equal to that row's tree, each with a new reply list and replies only one level deep |
| `ComentarioRepositorio.GetByDinosaurio` | data/comentario_repository.py:7-41 | the returned comments, followed through their `respuestas` objects, are exactly the specified tree `Arbol`; every returned comment and reply list is newly built and no reply has replies of its own |
| `ComentarioRepositorio.ArbolEn` | data/comentario_repository.py:32-38 | the i-th top-level comment comes from a top-level row of the dinosaur and carries exactly `get_respuestas` of its id |
| `ComentarioRepositorio.ArbolSoloRaices` | data/comentario_repository.py:10-17 | every returned top-level comment belongs to the dinosaur, has no parent, and carries its author's name; every top-level row of the dinosaur with an existing author is returned |
| `ComentarioRepositorio.ArbolMasRecientePrimero` | data/comentario_repository.py:10-17 | in the tree, an earlier top-level comment is never older than a later one |
| `ComentarioRepositorio.RespuestasEn` | data/comentario_repository.py:43-75 | the k-th reply is the view of the k-th reply row, which is a direct reply to the parent |
| `ComentarioRepositorio.RespuestasDirectas` | data/comentario_repository.py:46-71 | every reply returned has the given parent, an existing author with their name, and no replies of its own |
| `ComentarioRepositorio.RespuestasCompletas` | data/comentario_repository.py:46-53 | every direct reply whose author exists is among the replies returned |
| `ComentarioRepositorio.RespuestasMasAntiguaPrimero` | data/comentario_repository.py:46-53 | in the returned replies, an earlier one is never newer than a later one |
| `ComentarioRepositorio.RespuestaAnidadaOculta` | data/comentario_repository.py:37-73 | a reply to a reply appears nowhere in the assembled tree, neither at the top nor among any comment's replies |
| `ComentarioRepositorio.RespuestaDeOtroDinosaurio` | data/comentario_repository.py:51 | a reply filed under another dinosaur still appears under its top-level parent on this dinosaur's page |
| `ComentarioRepositorio.InsertarPreservaIntegridad` | data/comentario_repository.py:77-87 | appending a row with the next id and an existing parent (or none) keeps ids increasing and every parent present |
| `ComentarioRepositorio.InsertarComentario` | data/comentario_repository.py:77-87 | a parent id naming no comment is refused by the foreign key with nothing written; otherwise exactly one row is appended, with the next id, the given fields, the current time and no edit date, and that id is returned |
| `ComentarioRepositorio.EditarEn` | data/comentario_repository.py:89-98 | row by row, the update changes only the content and edit date of the row with the given id, to the new content and now; every other row is untouched |
| `ComentarioRepositorio.EditarPreservaIntegridad` | data/comentario_repository.py:89-98 | editing keeps the table well formed, and editing a missing id leaves the table exactly as it was |
| `ComentarioRepositorio.ActualizarComentario` | data/comentario_repository.py:89-98 | the table becomes the edited table (`Editar`) and stays well formed |
| `ComentarioRepositorio.BorrarComentario` | data/comentario_repository.py:100-105 | afterwards the table holds exactly the old rows that do not descend from the deleted id (the comment, its replies, their replies, ...) |
| `Store.BorrarEnCascadaCorrecto` | data/comentario_repository.py:100-105 | the single pass that deletes a comment with its descendants keeps exactly the non-descendants and leaves every remaining parent present |
| `Store.BorradosSonDescendientes` | data/comentario_repository.py:100-105 | the ids the cascade collects are exactly the ids of the rows that descend from the deleted comment |
| `ComentarioRepositorio.ContarComentarios` | data/comentario_repository.py:107-113 | the count of the dinosaur's rows, replies included: at most the table size, zero exactly when no row is the dinosaur's, the table size exactly when every row is |
| `ComentarioRepositorio.ContarSinRepetidos` | data/comentario_repository.py:107-113 | in a table keyed by id, the count is the number of distinct comments of the dinosaur |
| `ComentarioRepositorio.ContarRaicesYRespuestas` | data/comentario_repository.py:107-113 | the count is the dinosaur's top-level comments plus its replies |
| `ComentariosRouter.RedireccionFicha` | routers/comentarios_router.py:34 | the redirect starts with "/dinosaurios/" and the rest parses back to the dinosaur id |
| `ComentariosRouter.RedireccionInyectiva` | routers/comentarios_router.py:34 | two dinosaurs get the same redirect iff they are the same dinosaur |
| `ComentariosRouter.AutorDe` | routers/comentarios_router.py:49-58 | an author is found iff a comment with that id exists, and it is that comment's stored author |
| `ComentariosRouter.PuedeModificarExacto` | routers/comentarios_router.py:55-63 | the gate lets a user through iff the comment exists and the user is its author or has role "admin" |
| `ComentariosRouter.AdminDelRouterEsAdmin` | routers/comentarios_router.py:60 | whoever the router treats as admin also passes `require_auth_admin` |
| `ComentariosRouter.NombreAdminNoBasta` | routers/comentarios_router.py:59-63 | the converse fails: a user named "admin" without the admin role passes `require_auth_admin` but cannot edit or delete another user's comment |
| `ComentariosRouter.CrearComentario` | routers/comentarios_router.py:13-34 | content is stored as given, even empty, with the viewer as author and the parent as given; a missing parent is refused by the foreign key; a session id that is not an integer writes nothing |
| `ComentariosRouter.ActualizarComentarioHandler` | routers/comentarios_router.py:37-66 | the edit is applied iff the comment exists and the viewer is its author or an admin; otherwise nothing is written; the redirect is the same in every case |
| `ComentariosRouter.BorrarComentarioHandler` | routers/comentarios_router.py:69-97 | same gate: the cascading delete happens iff the comment exists and the viewer is its author or an admin, else no write; always the same redirect |
| `ComentariosRouter.VotarComentario` | routers/comentarios_router.py:100-119 | a kind other than "positivo" or "negativo" writes nothing; otherwise the viewer's vote on the comment becomes that kind, and nothing else changes |
| `ComentariosRouter.QuitarVoto` | routers/comentarios_router.py:122-135 | the viewer's vote on the comment is removed, with no existence check, and nothing else changes |
| `ComentariosRouter.VotosLimpiosPreservados` | routers/comentarios_router.py:112-117 | if every stored vote is "positivo" or "negativo", it stays so after any vote or retraction the handlers allow |
| `ComentariosRouter.ConteosSumanTotal` | routers/comentarios_router.py:112-117 | in such a ledger, positive plus negative counts equal the number of votes on the comment |
| `DinosaurioRepositorio.GetAll` | data/dinosaurio_repository.py:7-51 | the method's result is the selection `Seleccion` for the given filters |
| `DinosaurioRepositorio.CondicionesCoinciden` | data/dinosaurio_repository.py:21-39 | the appended `WHERE` clauses hold of a row iff the search (truthy) matches the name or the description, and era, region and diet (each truthy) match by equality; falsy filters apply nothing |
| `DinosaurioRepositorio.GetAllMiembros` | data/dinosaurio_repository.py:13-49 | a dinosaur is returned iff it is in the table and satisfies every truthy filter |
| `DinosaurioRepositorio.GetAllOrdenado` | data/dinosaurio_repository.py:41 | results are ordered by name |
| `DinosaurioRepositorio.GetAllSinFiltros` | data/dinosaurio_repository.py:13-41 | with no truthy filter (None, "" or 0), every dinosaur is returned, each as often as stored |
| `DinosaurioRepositorio.GetById` | data/dinosaurio_repository.py:53-66 | None iff no row has the id; otherwise a row of the table with that id |
| `DinosaurioRepositorio.InsertarDinosaurio` | data/dinosaurio_repository.py:68-85 | one row is appended with the next id, which is returned and found by `get_by_id` |
| `DinosaurioRepositorio.ActualizarGetById` | data/dinosaurio_repository.py:87-96 | after the update, the row with the id holds the new fields but its creator; a missing id leaves the table untouched |
| `DinosaurioRepositorio.ActualizarConserva` | data/dinosaurio_repository.py:87-96 | rows with other ids survive the update, and no new id appears |
| `DinosaurioRepositorio.ActualizarDinosaurio` | data/dinosaurio_repository.py:87-101 | the table is updated by id; RuntimeError("Update affected no rows") iff the id is missing, and then nothing changed |
| `DinosaurioRepositorio.BorrarDinosaurio` | data/dinosaurio_repository.py:103-113 | all links of the dinosaur are removed even when it does not exist, its row is removed, and RuntimeError("Delete affected no rows") is returned iff it did not exist |
| `DinosaurioRepositorio.AgregarHabitat` | data/dinosaurio_repository.py:115-124 | the link set gains the pair; adding an existing pair leaves it unchanged |
| `DinosaurioRepositorio.QuitarHabitat` | data/dinosaurio_repository.py:126-134 | exactly the given pair is removed |
| `DinosaurioRepositorio.GetHabitats` | data/dinosaurio_repository.py:136-145 | the list holds exactly the habitats linked to the dinosaur (empty when there are none), each once |
| `HabitatRepositorio.GetAll` | data/habitat_repository.py:7-31 | the method's result is the selection for the given filters |
| `HabitatRepositorio.CondicionesCoinciden` | data/habitat_repository.py:14-20 | the clauses hold iff a truthy search is in the name or description and a truthy `tipo_ambiente` is equal |
| `HabitatRepositorio.GetAllMiembros` | data/habitat_repository.py:7-29 | a habitat is returned iff it is in the table and satisfies every truthy filter |
| `HabitatRepositorio.GetAllOrdenado` | data/habitat_repository.py:22 | results are ordered by name |
| `HabitatRepositorio.GetAllSinFiltros` | data/habitat_repository.py:11-22 | with no truthy filter every habitat is returned |
| `HabitatRepositorio.GetById` | data/habitat_repository.py:33-40 | None iff no row has the id, otherwise a row with it |
| `HabitatRepositorio.InsertarHabitat` | data/habitat_repository.py:42-52 | one row is appended with the next id and can be found by it |
| `HabitatRepositorio.ActualizarHabitat` | data/habitat_repository.py:54-64 | replaced by id; RuntimeError iff the id is missing; afterwards `get_by_id` gives the new row exactly when the update succeeded |
| `HabitatRepositorio.BorrarHabitat` | data/habitat_repository.py:66-73 | the row is removed; RuntimeError iff it was missing; afterwards the id is absent |
| `HabitatRepositorio.GetHabitatsByDinosaurio` | data/habitat_repository.py:75-91 | the method's result is `HabitatsDeDinosaurio` |
| `HabitatRepositorio.HabitatsDeDinosaurioMiembros` | data/habitat_repository.py:78-89 | exactly the habitats linked to the dinosaur are returned, without their image |
| `HabitatRepositorio.HabitatsDeDinosaurioOrdenados` | data/habitat_repository.py:78-89 | ordered by name, and no returned habitat carries an image |
| `RegionRepositorio.GetAll` | data/region_repository.py:7-31 | the method's result is the selection for the given filters |
| `RegionRepositorio.CondicionesCoinciden` | data/region_repository.py:14-20 | the clauses hold iff a truthy search is in the name, country or description and a truthy continent is equal |
| `RegionRepositorio.GetAllMiembros` | data/region_repository.py:7-29 | a region is returned iff it is in the table and satisfies every truthy filter |
| `RegionRepositorio.GetAllOrdenado` | data/region_repository.py:22 | results are ordered by name |
| `RegionRepositorio.GetAllSinFiltros` | data/region_repository.py:11-22 | with no truthy filter every region is returned |
| `RegionRepositorio.GetById` | data/region_repository.py:33-40 | None iff no row has the id, otherwise a row with it |
| `RegionRepositorio.InsertarRegion` | data/region_repository.py:42-52 | one row is appended with the next id and can be found by it |
| `RegionRepositorio.ActualizarRegion` | data/region_repository.py:54-64 | replaced by id; RuntimeError iff the id is missing |
| `RegionRepositorio.BorrarRegion` | data/region_repository.py:66-73 | removed; RuntimeError iff it was missing; afterwards the id is absent |
| `EraRepositorio.InicioDescTotal` | data/era_repository.py:18 | the descending start order (NULL last) is total and transitive, so sorting by it is well defined |
| `EraRepositorio.GetAll` | data/era_repository.py:7-27 | the method's result is the selection for the search |
| `EraRepositorio.CondicionesCoinciden` | data/era_repository.py:14-16 | the clause holds iff a truthy search is in the name or the description; a falsy one filters nothing |
| `EraRepositorio.GetAllMiembros` | data/era_repository.py:7-25 | an era is returned iff it is in the table and matches a truthy search |
| `EraRepositorio.GetAllOrdenado` | data/era_repository.py:18 | eras come by `periodo_inicio` descending, eras without a start last |
| `EraRepositorio.GetAllSinFiltros` | data/era_repository.py:11-18 | with a falsy search every era is returned |
| `EraRepositorio.GetById` | data/era_repository.py:29-36 | None iff no row has the id, otherwise a row with it |
| `EraRepositorio.InsertarEra` | data/era_repository.py:38-48 | one row is appended with the next id and can be found by it |
| `EraRepositorio.ActualizarEra` | data/era_repository.py:50-60 | replaced by id; RuntimeError iff the id is missing |
| `EraRepositorio.BorrarEra` | data/era_repository.py:62-69 | removed; RuntimeError iff it was missing; afterwards the id is absent |
| `DinosauriosRouter.ParseIntOpcional` | routers/dinosaurios_router.py:29-32 | None and "" give no value; any other string gives `int(s)`, and a ValueError exactly when it is not an integer |
| `DinosauriosRouter.ParseIntOpcionalTexto` | routers/dinosaurios_router.py:29-32 | round trip: the decimal text of any integer parses back to it |
| `DinosauriosRouter.IdDeConsulta` | routers/dinosaurios_router.py:53-54 | no id iff the query value is None or only whitespace (empty included) |
| `DinosauriosRouter.IdDeConsultaFrenteAParseInt` | routers/dinosaurios_router.py:53-54 | the list-page parsing and `_parse_int` agree except on a non-empty all-whitespace string, which the list page ignores and `_parse_int` rejects |
| `DinosauriosRouter.ListarDinosaurios` | routers/dinosaurios_router.py:52-58 | a ValueError iff an id string does not parse; otherwise the dinosaurs `get_all` selects for the parsed filters |
| `DinosauriosRouter.EraCeroSinFiltro` | routers/dinosaurios_router.py:53-58 | "0" parses to era 0, which `get_all` treats as no era filter |
| `DinosauriosRouter.NombreFinal` | routers/dinosaurios_router.py:178 | the final path component holds no "/" |
| `DinosauriosRouter.NombreFinalSimple` | routers/dinosaurios_router.py:178 | a name with no "/" (not "" or ".") is its own final component |
| `DinosauriosRouter.Sufijo` | routers/dinosaurios_router.py:178 | the suffix is "" or a "." followed by at least one character, with no further "." and no "/" |
| `DinosauriosRouter.SufijoDeNombreSimple` | routers/dinosaurios_router.py:178 | the suffix of "base.ext" is ".ext" |
| `DinosauriosRouter.RutaImagenForma` | routers/dinosaurios_router.py:178-185 | the stored path starts with "/uploads/dino_", ends with the upload's suffix, and holds no space unless the id or suffix does |
| `DinosauriosRouter.NombresConEspacioColisionan` | routers/dinosaurios_router.py:179 | "T rex" and "T_rex" with the same id get the same file name, so one upload overwrites the other |
| `DinosauriosRouter.ReconciliacionPorDiferencia` | routers/dinosaurios_router.py:314-325 | removing current − new and adding new − current gives the target link set; afterwards the dinosaur's habitats are exactly the selected ones; other dinosaurs' links are untouched; habitats in both sets are neither removed nor added |
| `DinosauriosRouter.ReconciliarHabitats` | routers/dinosaurios_router.py:313-325 | the two loops change the link table by exactly that difference (a missing selection counts as empty) and reach the target link set |
| `DinosauriosRouter.EnlazarHabitats` | routers/dinosaurios_router.py:204-207 | every selected habitat is linked to the dinosaur, and nothing else is added |
| `DinosauriosRouter.CrearDinosaurio` | routers/dinosaurios_router.py:150-216 | a non-integer era or region id fails with nothing written; otherwise one row is appended with the next id, the creator's session id and the image path; every selected habitat is linked; the redirect names the new id |
| `DinosauriosRouter.ActualizarDinosaurioHandler` | routers/dinosaurios_router.py:258-334 | a non-integer id fails with nothing written; otherwise the row is updated with the kept or new image; a missing dinosaur fails with no link change; an existing one has its habitats reconciled to the selection |
| `DinosauriosRouter.EdicionConservaImagen` | routers/dinosaurios_router.py:279-311 | an edit without an upload keeps the stored image and the creator |
| `GuionSql.NoVaciasEn` | run_migrations.py:35-37 | a statement is run iff it is the non-empty strip of some piece |
| `GuionSql.SentenciasForma` | run_migrations.py:34-37 | every statement sent is non-empty, stripped, and holds no ";" |
| `GuionSql.SentenciasCortanLiterales` | run_migrations.py:34 | splitting ignores quotes: a ";" inside a string literal cuts the statement in two |
| `GuionSql.ConfirmadasEn` | run_migrations.py:38-44 | the statements that stay committed are exactly the attempted ones the server accepted |
| `EjecucionMigraciones.EjecutarMigraciones` | run_migrations.py:7-54 | success iff the connection opens and the file exists; otherwise nothing is sent; every statement is attempted even after failures, and the committed ones are those that succeeded |
| `EjecucionMigraciones.ComentariosEnviados` | run_migrations.py:34-37 | unlike the other script, comment lines are not dropped: "-- a" is sent as a statement here, and it yields nothing in `run_migration` |
| `MigracionEdicionVotos.UtilesOrigen` | migrate_edit_and_votes.py:32-37 | every kept line is the strip of an input line, non-empty and not starting with "--" |
| `MigracionEdicionVotos.UtilesIncluye` | migrate_edit_and_votes.py:32-37 | every input line whose strip is non-empty and not a "--" comment is kept |
| `MigracionEdicionVotos.LineaConservada` | migrate_edit_and_votes.py:33-37 | a stripped, non-empty, non-comment line is kept whole |
| `MigracionEdicionVotos.SentenciasMigracionForma` | migrate_edit_and_votes.py:39-45 | every executed statement is non-empty, stripped, and holds no ";" |
| `MigracionEdicionVotos.SoloComentarios` | migrate_edit_and_votes.py:32-45 | a file of blank and "--" lines sends no statement |
| `MigracionEdicionVotos.RechazoPrimero` | migrate_edit_and_votes.py:47-54 | every statement before the stopping point ran or failed with a tolerated error; the one at it, if any, failed otherwise |
| `MigracionEdicionVotos.RechazoEn` | migrate_edit_and_votes.py:47-54 | the stopping point is the first statement whose error is not tolerated |
| `MigracionEdicionVotos.RechazoNinguno` | migrate_edit_and_votes.py:47-54 | the run passes the end iff every statement ran or failed with "already exists" or "Duplicate column" |
| `MigracionEdicionVotos.RunMigration` | migrate_edit_and_votes.py:10-77 | no connection or no file: False with nothing sent; otherwise statements are sent in order up to and including the first non-tolerated failure; True iff there was none; the counter counts the statements that succeeded |
| `MigracionEdicionVotos.EjecutarPiezas` | migrate_edit_and_votes.py:42-54 | the loop attempts the statements up to the first non-tolerated failure, stops there, and counts successes |
| `MigracionEdicionVotos.EjecutarPieza` | migrate_edit_and_votes.py:43-54 | one loop turn: an empty piece is skipped; a statement is sent, counted on success, and stops the loop only on a non-tolerated error |
| `MigracionEdicionVotos.LineasSql` | migrate_edit_and_votes.py:32-37 | the loop keeps exactly `Utiles` of the file's lines |

## Left out

- Floating point: `_parse_float` and the weight/height/length columns are not modelled (rows carry no such fields), so their ValueErrors are not either.
- SQL `LIKE` is plain substring containment: case-insensitive collation and the `%`/`_` wildcards inside a search are not modelled.
- `ORDER BY nombre` is plain lexicographic order on characters, not MySQL collation. The order among equal names is insertion order, which MySQL does not promise.
- `ComentarioRepositorio.FilasRaiz`, `ComentarioRepositorio.FilasRespuesta`, `ComentarioRepositorio.ConstruirRaices` and `ComentarioRepositorio.GetByDinosaurio`: comments with equal `fecha_creacion` keep insertion order. MySQL does not promise any order among them.
- `EraRepositorio.GetAll`: eras with equal `periodo_inicio` keep insertion order. MySQL does not promise any order among them.
- `NOW()`/`CURRENT_TIMESTAMP` become a clock parameter `ahora`. Timestamps are integers, and `str(datetime)` formatting is left out.
- The vote rows of a deleted comment: the `comentario_votos` schema is not available, so no cascade on votes is modelled. Deleted comments' votes stay in the ledger.
- Foreign keys other than a comment's parent are not checked. This covers deleting a dinosaur, user, habitat, era or region that rows still reference, and a vote or comment on a missing dinosaur or user.
- Ids are the next counter value. AUTO_INCREMENT gaps, and ids reused after a server restart, are not modelled.
- Concurrency: the check-then-insert race in `agregar_voto` and the database's uniqueness constraint are not modelled (the map key makes a pair unique).
- HTTP status codes, templates and async handling are left out. Handlers return the redirect URL or an error value.
- The display enrichment of `listar_dinosaurios` (era, region and habitats attached to each row) and the detail and form pages are left out.
- Writing the uploaded file to disk is left out. Only the stored path and file name are modelled.
- Path suffixes follow POSIX `pathlib` only. Windows separators are not modelled.
- `data/usuario_repository.py` is not part of this model: bcrypt hashing and verification are foreign calls. The user lookup of `obtener_usuario_actual` is a function parameter whose outcome is found, not found, or failed.
- `int()` is modelled on an optional sign and ASCII digits with surrounding whitespace. Underscores and non-ASCII digits are not accepted.
- `DinosaurioRepositorio.ActualizarDinosaurio`: `cursor.rowcount` is modelled as matched rows. MySQL reports changed rows by default, so an update that writes identical values would also raise there.
- `HabitatRepositorio.ActualizarHabitat`: `cursor.rowcount` is modelled as matched rows, so "Update affected no rows" is raised only for a missing id. MySQL reports changed rows by default, so an update that writes identical values would also raise there.
- `RegionRepositorio.ActualizarRegion`: `cursor.rowcount` is modelled as matched rows, so "Update affected no rows" is raised only for a missing id. MySQL would also raise on an update that writes identical values.
- `EraRepositorio.ActualizarEra`: `cursor.rowcount` is modelled as matched rows, so "Update affected no rows" is raised only for a missing id. MySQL would also raise on an update that writes identical values.
- `DinosaurioRepositorio.InsertarDinosaurio`: an INSERT always affects one row here, so the "Insert no rows affected" error never fires. The same holds for the habitat, region and era inserts.
- `ComentariosRouter.CrearComentario`: a session `id` that is not an integer is reported as an error. The source would pass it to the driver.
- `ComentariosRouter.VotarComentario`: a session `id` that is not an integer is reported as an error and no vote is written. The source would pass it to the driver in `agregar_voto`.
- `ComentariosRouter.QuitarVoto`: a session `id` that is not an integer is reported as an error and no vote is removed. The source would pass it to the driver in `eliminar_voto`.
- `DinosauriosRouter.CrearDinosaurio`: a session `id` that is not an integer is stored as no creator (`creador_id` NULL). The source would pass the raw value to the driver.
- The migration server is a function from statement text to None (success) or the error text. A statement's outcome therefore depends only on its text: earlier statements cannot change later outcomes, and the connection is a boolean parameter.
- `MigracionEdicionVotos.RunMigration`: only `mysql.connector.Error` from a statement is modelled. Other exceptions and the DDL statements' implicit commits are not, so whether work before a failure stays in the database is not stated.
- `EjecucionMigraciones.EjecutarMigraciones`: rollback undoes only the failed statement, and a failed commit is not modelled.
- Console output of both migration scripts is left out.
