/** migrate_edit_and_votes.py: `run_migration` reads the script that adds comment
    editing and votes, drops its comment lines, splits it into statements and runs
    them, tolerating the errors of objects that already exist. */
module MigracionEdicionVotos {
  import opened Wrappers
  import opened Text
  import opened GuionSql

  /** The lines kept in `sql_lines`: stripped, non-empty, not starting with `--`. A `--`
      later in a line is kept with the line. */
  function Utiles(lineas: seq<string>): (r: seq<string>)
    ensures |r| <= |lineas|
  {
    if lineas == [] then []
    else
      var l := Strip(lineas[|lineas| - 1]);
      Utiles(lineas[..|lineas| - 1]) + (if l != [] && !StartsWith(l, "--") then [l] else [])
  }

  /** Every kept line is a stripped line of the file that is neither empty nor a comment. */
  lemma {:induction false} UtilesOrigen(lineas: seq<string>, i: nat) returns (k: nat)
    requires i < |Utiles(lineas)|
    ensures k < |lineas| && Utiles(lineas)[i] == Strip(lineas[k])
    ensures Utiles(lineas)[i] != [] && !StartsWith(Utiles(lineas)[i], "--")
  {
    var n := |lineas| - 1;
    var l := Strip(lineas[n]);
    var inicio := Utiles(lineas[..n]);
    assert Utiles(lineas) == inicio + (if l != [] && !StartsWith(l, "--") then [l] else []);
    if i < |inicio| {
      k := UtilesOrigen(lineas[..n], i);
      assert Utiles(lineas)[i] == inicio[i];
      assert lineas[..n][k] == lineas[k];
    } else {
      k := n;
      assert Utiles(lineas)[i] == l;
    }
  }

  /** Every stripped line of the file that is neither empty nor a comment is kept. */
  lemma {:induction false} UtilesIncluye(lineas: seq<string>, k: nat)
    requires k < |lineas| && Strip(lineas[k]) != [] && !StartsWith(Strip(lineas[k]), "--")
    ensures Strip(lineas[k]) in Utiles(lineas)
  {
    var n := |lineas| - 1;
    var l := Strip(lineas[n]);
    assert Utiles(lineas) == Utiles(lineas[..n]) + (if l != [] && !StartsWith(l, "--") then [l] else []);
    var previas := Utiles(lineas[..n]);
    if k < n {
      UtilesIncluye(lineas[..n], k);
      assert lineas[..n][k] == lineas[k];
      assert Strip(lineas[k]) in previas;
    } else {
      assert Strip(lineas[k]) == l;
      assert Utiles(lineas) == previas + [l];
    }
  }

  /** A code line is kept whole, even when it carries a `--` comment after the code. */
  lemma LineaConservada(l: string)
    requires l != [] && IsStripped(l) && !StartsWith(l, "--")
    ensures Utiles([l]) == [l]
  {
    StripStripped(l);
    assert [l][..0] == [];
  }

  /** The statements `run_migration` executes: the kept lines joined with newlines,
      split on every `;`, stripped, empty pieces skipped. */
  function SentenciasMigracion(contenido: string): seq<string> {
    NoVacias(Split(Join(Utiles(Split(contenido, '\n')), "\n"), ';'))
  }

  /** No executed statement is empty, has whitespace at an end or holds a `;`. */
  lemma SentenciasMigracionForma(contenido: string)
    ensures forall s :: s in SentenciasMigracion(contenido) ==> s != [] && IsStripped(s) && ';' !in s
  {
    NoVaciasForma(Split(Join(Utiles(Split(contenido, '\n')), "\n"), ';'), ';');
  }

  /** A file of blank and comment lines runs no statement, whatever `;` its comments hold. */
  lemma SoloComentarios(contenido: string)
    requires forall k :: 0 <= k < |Split(contenido, '\n')| ==>
               var l := Strip(Split(contenido, '\n')[k]); l == [] || StartsWith(l, "--")
    ensures SentenciasMigracion(contenido) == []
  {
    var lineas := Split(contenido, '\n');
    if Utiles(lineas) != [] {
      var k := UtilesOrigen(lineas, 0);
      assert false;
    }
    assert Split("", ';') == [[]];
    assert Strip([]) == [];
    assert NoVacias([[]]) == [];
  }

  /** Errors `run_migration` lets pass: the object is already there. */
  predicate Tolerable(error: string) {
    Contains(error, "already exists") || Contains(error, "Duplicate column")
  }

  /** The statement ran, or failed with a tolerated error. */
  predicate Aceptada(servidor: Servidor, s: string) {
    servidor(s).None? || Tolerable(servidor(s).value)
  }

  /** The position of the first statement whose error is not tolerated, or the number
      of statements when there is none. */
  function Rechazo(sentencias: seq<string>, servidor: Servidor): (r: nat)
    ensures r <= |sentencias|
  {
    if sentencias == [] || !Aceptada(servidor, sentencias[0]) then 0
    else 1 + Rechazo(sentencias[1..], servidor)
  }

  /** Every statement before the rejection is accepted, and the rejected one is not. */
  lemma {:induction false} RechazoPrimero(sentencias: seq<string>, servidor: Servidor)
    ensures forall j :: 0 <= j < Rechazo(sentencias, servidor) ==> Aceptada(servidor, sentencias[j])
    ensures Rechazo(sentencias, servidor) < |sentencias|
            ==> !Aceptada(servidor, sentencias[Rechazo(sentencias, servidor)])
  {
    if sentencias != [] && Aceptada(servidor, sentencias[0]) {
      RechazoPrimero(sentencias[1..], servidor);
      forall j | 1 <= j < Rechazo(sentencias, servidor)
        ensures Aceptada(servidor, sentencias[j])
      {
        assert sentencias[j] == sentencias[1..][j - 1];
      }
    }
  }

  /** The first statement that is not accepted is the rejected one. */
  lemma {:induction false} RechazoEn(sentencias: seq<string>, servidor: Servidor, m: nat)
    requires m < |sentencias| && !Aceptada(servidor, sentencias[m])
    requires forall j :: 0 <= j < m ==> Aceptada(servidor, sentencias[j])
    ensures Rechazo(sentencias, servidor) == m
  {
    if m > 0 {
      assert Aceptada(servidor, sentencias[0]);
      forall j | 0 <= j < m - 1
        ensures Aceptada(servidor, sentencias[1..][j])
      {
        assert sentencias[1..][j] == sentencias[j + 1];
      }
      RechazoEn(sentencias[1..], servidor, m - 1);
    }
  }

  /** When every statement is accepted there is no rejection. */
  lemma {:induction false} RechazoTodas(sentencias: seq<string>, servidor: Servidor)
    requires forall j :: 0 <= j < |sentencias| ==> Aceptada(servidor, sentencias[j])
    ensures Rechazo(sentencias, servidor) == |sentencias|
  {
    if sentencias != [] {
      assert Aceptada(servidor, sentencias[0]);
      forall j | 0 <= j < |sentencias| - 1
        ensures Aceptada(servidor, sentencias[1..][j])
      {
        assert sentencias[1..][j] == sentencias[j + 1];
      }
      RechazoTodas(sentencias[1..], servidor);
    }
  }

  /** The run gets through every statement exactly when each one is accepted. */
  lemma RechazoNinguno(sentencias: seq<string>, servidor: Servidor)
    ensures Rechazo(sentencias, servidor) == |sentencias|
            <==> forall s :: s in sentencias ==> Aceptada(servidor, s)
  {
    RechazoPrimero(sentencias, servidor);
    if forall s :: s in sentencias ==> Aceptada(servidor, s) {
      RechazoTodas(sentencias, servidor);
    }
  }

  /** `run_migration`: without a connection or without the file it answers False and
      runs nothing; otherwise it runs the statements in order until one fails with an
      error it does not tolerate, which answers False; having run them all it commits
      and answers True. `ejecutados` is the count of statements that ran without error. */
  method RunMigration(conecta: bool, contenido: Option<string>, servidor: Servidor)
    returns (exito: bool, intentadas: seq<string>, ejecutados: nat)
    ensures !conecta || contenido.None? ==> !exito && intentadas == []
    ensures conecta && contenido.Some? ==>
              var sentencias := SentenciasMigracion(contenido.value);
              var k := Rechazo(sentencias, servidor);
              && (exito <==> k == |sentencias|)
              && intentadas == if k == |sentencias| then sentencias else sentencias[..k + 1]
    ensures ejecutados == |Confirmadas(intentadas, servidor)|
  {
    if !conecta || contenido.None? {
      return false, [], 0;
    }
    var lineasSql := LineasSql(contenido.value);
    var piezas := Split(Join(lineasSql, "\n"), ';');
    assert NoVacias(piezas) == SentenciasMigracion(contenido.value);
    exito, intentadas, ejecutados := EjecutarPiezas(piezas, servidor);
  }

  /** The second loop of `run_migration`: each piece stripped, empty ones skipped, the
      others run until an error that is not tolerated. */
  method EjecutarPiezas(piezas: seq<string>, servidor: Servidor)
    returns (exito: bool, intentadas: seq<string>, ejecutados: nat)
    ensures var sentencias := NoVacias(piezas);
            var k := Rechazo(sentencias, servidor);
            && (exito <==> k == |sentencias|)
            && intentadas == if k == |sentencias| then sentencias else sentencias[..k + 1]
    ensures ejecutados == |Confirmadas(intentadas, servidor)|
  {
    intentadas := [];
    ejecutados := 0;
    for i := 0 to |piezas|
      invariant intentadas == NoVacias(piezas[..i])
      invariant forall j :: 0 <= j < |intentadas| ==> Aceptada(servidor, intentadas[j])
      invariant ejecutados == |Confirmadas(intentadas, servidor)|
    {
      var detener;
      ghost var previas := intentadas;
      detener, intentadas, ejecutados := EjecutarPieza(piezas, i, servidor, intentadas, ejecutados);
      if detener {
        exito := false;
        RechazoAlDetener(piezas, i, servidor, previas, exito, intentadas);
        return;
      }
    }
    exito := true;
    RechazoAlTerminar(piezas, servidor, exito, intentadas);
  }

  /** When the loop runs to the end, the statements run are all the statements of
      the file and none was rejected. */
  lemma RechazoAlTerminar(piezas: seq<string>, servidor: Servidor, exito: bool, intentadas: seq<string>)
    requires exito && intentadas == NoVacias(piezas[..|piezas|])
    requires forall j :: 0 <= j < |intentadas| ==> Aceptada(servidor, intentadas[j])
    ensures var sentencias := NoVacias(piezas);
            && (exito <==> Rechazo(sentencias, servidor) == |sentencias|)
            && intentadas == sentencias
  {
    assert piezas[..|piezas|] == piezas;
    RechazoTodas(intentadas, servidor);
  }

  /** When turn `i` stops the loop, the statements run so far are the statements of
      the file up to and including the rejected one. */
  lemma RechazoAlDetener(piezas: seq<string>, i: nat, servidor: Servidor, previas: seq<string>, exito: bool, intentadas: seq<string>)
    requires !exito && i < |piezas| && intentadas == NoVacias(piezas[..i + 1])
    requires |intentadas| == |previas| + 1 && intentadas[..|previas|] == previas
    requires forall j :: 0 <= j < |previas| ==> Aceptada(servidor, previas[j])
    requires !Aceptada(servidor, intentadas[|previas|])
    ensures var sentencias := NoVacias(piezas);
            var k := Rechazo(sentencias, servidor);
            && (exito <==> k == |sentencias|)
            && intentadas == if k == |sentencias| then sentencias else sentencias[..k + 1]
  {
    RechazoTrasPrevias(piezas, i, servidor, previas, intentadas);
  }

  /** The rejection sits right after the accepted statements `previas`. */
  lemma RechazoTrasPrevias(piezas: seq<string>, i: nat, servidor: Servidor, previas: seq<string>, intentadas: seq<string>)
    requires i < |piezas| && intentadas == NoVacias(piezas[..i + 1])
    requires |intentadas| == |previas| + 1 && intentadas[..|previas|] == previas
    requires forall j :: 0 <= j < |previas| ==> Aceptada(servidor, previas[j])
    requires !Aceptada(servidor, intentadas[|previas|])
    ensures var sentencias := NoVacias(piezas);
            && Rechazo(sentencias, servidor) == |previas| < |sentencias|
            && intentadas == sentencias[..|previas| + 1]
  {
    NoVaciasPrefijo(piezas, i + 1);
    var sentencias := NoVacias(piezas);
    assert intentadas == sentencias[..|intentadas|];
    assert forall j :: 0 <= j < |previas| ==> sentencias[j] == previas[j];
    RechazoEn(sentencias, servidor, |previas|);
  }

  /** One turn of that loop: piece `i` stripped and, unless empty, run; `detener` when
      its error is not tolerated, which re-raises it. */
  method EjecutarPieza(piezas: seq<string>, i: nat, servidor: Servidor, intentadas: seq<string>, ejecutados: nat)
    returns (detener: bool, intentadas': seq<string>, ejecutados': nat)
    requires i < |piezas| && intentadas == NoVacias(piezas[..i])
    requires forall j :: 0 <= j < |intentadas| ==> Aceptada(servidor, intentadas[j])
    requires ejecutados == |Confirmadas(intentadas, servidor)|
    ensures intentadas' == NoVacias(piezas[..i + 1])
    ensures ejecutados' == |Confirmadas(intentadas', servidor)|
    ensures |intentadas| <= |intentadas'| && intentadas'[..|intentadas|] == intentadas
    ensures !detener ==> forall j :: 0 <= j < |intentadas'| ==> Aceptada(servidor, intentadas'[j])
    ensures detener ==> |intentadas'| == |intentadas| + 1 && !Aceptada(servidor, intentadas'[|intentadas|])
  {
    NoVaciasSiguiente(piezas, i);
    var sentencia := Strip(piezas[i]);
    detener, intentadas', ejecutados' := false, intentadas, ejecutados;
    if sentencia != [] {
      intentadas' := intentadas + [sentencia];
      assert intentadas'[..|intentadas'| - 1] == intentadas;
      var error := servidor(sentencia);
      if error.None? {
        ejecutados' := ejecutados + 1;
      } else if !Tolerable(error.value) {
        detener := true;
      }
    }
  }

  /** The first loop of `run_migration`, which fills `sql_lines`. */
  method LineasSql(contenido: string) returns (lineasSql: seq<string>)
    ensures lineasSql == Utiles(Split(contenido, '\n'))
  {
    var lineas := Split(contenido, '\n');
    lineasSql := [];
    for i := 0 to |lineas|
      invariant lineasSql == Utiles(lineas[..i])
    {
      assert lineas[..i + 1][..i] == lineas[..i];
      var linea := Strip(lineas[i]);
      if linea != [] && !StartsWith(linea, "--") {
        lineasSql := lineasSql + [linea];
      }
    }
    assert lineas[..|lineas|] == lineas;
  }
}
