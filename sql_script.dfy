/** How the migration scripts cut a SQL file into the statements they send to the
    server: every `;` ends a statement, wherever it stands, and what lies between
    two of them is stripped and skipped when nothing is left. */
module GuionSql {
  import opened Wrappers
  import opened Text

  /** The stripped pieces that are not empty, in order: the `strip()` and `if
      statement:` at the top of both execution loops. */
  function NoVacias(piezas: seq<string>): (r: seq<string>)
    ensures |r| <= |piezas|
  {
    if piezas == [] then []
    else
      var s := Strip(piezas[|piezas| - 1]);
      NoVacias(piezas[..|piezas| - 1]) + (if s == [] then [] else [s])
  }

  /** Every statement is a non-empty stripped piece: `k` is the piece it comes from. */
  lemma {:induction false} NoVaciasOrigen(piezas: seq<string>, i: nat) returns (k: nat)
    requires i < |NoVacias(piezas)|
    ensures k < |piezas| && NoVacias(piezas)[i] == Strip(piezas[k]) && NoVacias(piezas)[i] != []
  {
    var n := |piezas| - 1;
    var t := Strip(piezas[n]);
    var inicio := NoVacias(piezas[..n]);
    assert NoVacias(piezas) == inicio + (if t == [] then [] else [t]);
    if i < |inicio| {
      k := NoVaciasOrigen(piezas[..n], i);
      assert NoVacias(piezas)[i] == inicio[i];
      assert piezas[..n][k] == piezas[k];
    } else {
      k := n;
      assert t != [] && NoVacias(piezas)[i] == t;
    }
  }

  /** Every non-empty stripped piece is a statement. */
  lemma {:induction false} NoVaciasIncluye(piezas: seq<string>, k: nat)
    requires k < |piezas| && Strip(piezas[k]) != []
    ensures Strip(piezas[k]) in NoVacias(piezas)
  {
    var n := |piezas| - 1;
    if k < n {
      NoVaciasIncluye(piezas[..n], k);
      assert piezas[..n][k] == piezas[k];
    }
  }

  /** `NoVacias` keeps exactly the non-empty stripped pieces. */
  lemma NoVaciasEn(piezas: seq<string>, s: string)
    ensures s in NoVacias(piezas) <==> s != [] && exists k :: 0 <= k < |piezas| && Strip(piezas[k]) == s
  {
    if s in NoVacias(piezas) {
      var i :| 0 <= i < |NoVacias(piezas)| && NoVacias(piezas)[i] == s;
      var k := NoVaciasOrigen(piezas, i);
    }
    if s != [] && exists k :: 0 <= k < |piezas| && Strip(piezas[k]) == s {
      var k :| 0 <= k < |piezas| && Strip(piezas[k]) == s;
      NoVaciasIncluye(piezas, k);
    }
  }

  /** One more piece adds its stripped text, unless that is empty. */
  lemma NoVaciasSiguiente(piezas: seq<string>, i: nat)
    requires i < |piezas|
    ensures NoVacias(piezas[..i + 1])
            == NoVacias(piezas[..i]) + (if Strip(piezas[i]) == [] then [] else [Strip(piezas[i])])
  {
    assert piezas[..i + 1][..i] == piezas[..i];
  }

  /** A prefix of the pieces yields a prefix of the statements. */
  lemma {:induction false} NoVaciasPrefijo(piezas: seq<string>, j: nat)
    requires j <= |piezas|
    ensures NoVacias(piezas[..j]) <= NoVacias(piezas)
    decreases |piezas| - j
  {
    if j < |piezas| {
      var n := |piezas| - 1;
      assert piezas[..n][..j] == piezas[..j];
      NoVaciasPrefijo(piezas[..n], j);
    } else {
      assert piezas[..j] == piezas;
    }
  }

  /** Each statement is non-empty, has no whitespace at either end and holds no `c`
      when no piece does. */
  lemma NoVaciasForma(piezas: seq<string>, c: char)
    requires forall k :: 0 <= k < |piezas| ==> c !in piezas[k]
    ensures forall s :: s in NoVacias(piezas) ==> s != [] && IsStripped(s) && c !in s
  {
    forall i | 0 <= i < |NoVacias(piezas)|
      ensures var s := NoVacias(piezas)[i]; s != [] && IsStripped(s) && c !in s
    {
      var k := NoVaciasOrigen(piezas, i);
      StripSin(piezas[k], c);
    }
  }

  /** `content.split(';')`, each piece stripped, empty pieces skipped. */
  function Sentencias(texto: string): (r: seq<string>)
    ensures |r| <= |Split(texto, ';')|
  {
    NoVacias(Split(texto, ';'))
  }

  /** What the splitter hands on: non-empty, stripped, free of `;`. */
  lemma SentenciasForma(texto: string)
    ensures forall s :: s in Sentencias(texto) ==> s != [] && IsStripped(s) && ';' !in s
  {
    NoVaciasForma(Split(texto, ';'), ';');
  }

  /** A `;` inside a string literal also ends a statement: `'a;b'` becomes the two
      statements `'a` and `b'`. */
  lemma SentenciasCortanLiterales()
    ensures Sentencias("'a;b'") == ["'a", "b'"]
  {
    var piezas := Split("'a;b'", ';');
    SplitLiteral();
    assert Strip("'a") == "'a" by {
      StripStripped("'a");
    }
    assert Strip("b'") == "b'" by {
      StripStripped("b'");
    }
    assert piezas[..1] == ["'a"];
    assert piezas[..1][..0] == [];
  }

  /** `"'a;b'".split(';')`, step by step from the end. */
  lemma SplitLiteral()
    ensures Split("'a;b'", ';') == ["'a", "b'"]
  {
    SplitSinSeparador("b'", ';');
    assert ";b'"[1..] == "b'";
    assert Split(";b'", ';') == ["", "b'"];
    assert "a;b'"[1..] == ";b'";
    assert ["", "b'"][1..] == ["b'"];
    assert ['a'] + "" == "a";
    assert Split("a;b'", ';') == ["a", "b'"];
    assert ["a", "b'"][1..] == ["b'"];
    assert "'a;b'"[1..] == "a;b'";
    assert ['\''] + "a" == "'a";
  }

  /** The server's answer to one statement: None when `cursor.execute` returns, the
      text of the error when it raises. The answer depends on the statement alone. */
  type Servidor = string -> Option<string>

  /** The statements the server ran without an error, in order. */
  function Confirmadas(sentencias: seq<string>, servidor: Servidor): (r: seq<string>)
    ensures |r| <= |sentencias|
  {
    if sentencias == [] then []
    else
      var s := sentencias[|sentencias| - 1];
      Confirmadas(sentencias[..|sentencias| - 1], servidor) + (if servidor(s).None? then [s] else [])
  }

  /** A statement is confirmed exactly when it was sent and the server ran it. */
  lemma {:induction false} ConfirmadasEn(sentencias: seq<string>, servidor: Servidor, s: string)
    ensures s in Confirmadas(sentencias, servidor) <==> s in sentencias && servidor(s).None?
  {
    if sentencias != [] {
      var n := |sentencias| - 1;
      ConfirmadasEn(sentencias[..n], servidor, s);
      assert sentencias == sentencias[..n] + [sentencias[n]];
    }
  }
}
