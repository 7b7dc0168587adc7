/** The catalog records of domain/model: plain values, one per table row.
    The floating-point measurements of a dinosaur are not part of this model. */
module Catalogo {
  import opened Wrappers

  datatype Dinosaurio = Dinosaurio(
    id: int,
    nombre: string,
    descripcion: Option<string> := None,
    tipo: Option<string> := None,
    dieta: Option<string> := None,
    eraId: Option<int> := None,
    regionId: Option<int> := None,
    creadorId: Option<int> := None,
    imagen: Option<string> := None)

  datatype Era = Era(
    id: int,
    nombre: string,
    periodoInicio: Option<int> := None,
    periodoFin: Option<int> := None,
    descripcion: Option<string> := None,
    imagen: Option<string> := None)

  datatype Region = Region(
    id: int,
    nombre: string,
    pais: Option<string> := None,
    continente: Option<string> := None,
    descripcion: Option<string> := None,
    imagen: Option<string> := None)

  datatype Habitat = Habitat(
    id: int,
    nombre: string,
    tipoAmbiente: Option<string> := None,
    descripcion: Option<string> := None,
    imagen: Option<string> := None)

  /** The primary keys, as functions for the generic table operations. */
  function IdDinosaurio(d: Dinosaurio): int { d.id }
  function IdEra(e: Era): int { e.id }
  function IdRegion(r: Region): int { r.id }
  function IdHabitat(h: Habitat): int { h.id }
}
