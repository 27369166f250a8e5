/**
 * `ReordenarModal.sacarFrontmatter`: drop the YAML frontmatter block
 * (`---` ... `---` up to the end of that line) from a note's text before it
 * is rendered. It uses no state of the modal, so it is a plain function here.
 */
module Frontmatter {
  import opened Texto

  const Delimitador: string := "---"

  /** `contenido.slice(0, 3) == "---"`. */
  predicate EmpiezaConDelimitador(contenido: string)
    ensures EmpiezaConDelimitador(contenido) <==>
              |contenido| >= 3 && contenido[0] == '-' && contenido[1] == '-' && contenido[2] == '-'
  {
    contenido[..if |contenido| < 3 then |contenido| else 3] == Delimitador
  }

  /**
   * The function as written: after the opening `---`, find the next `---`,
   * then the next newline from there, and keep what follows it. Both searches
   * may fail (-1), and `slice` then counts from the end of the text.
   */
  function SacarFrontmatter(contenido: string): (r: string)
    ensures |r| <= |contenido| && r == contenido[|contenido| - |r|..]
    ensures !EmpiezaConDelimitador(contenido) ==> r == contenido
    ensures EmpiezaConDelimitador(contenido) ==> |r| <= |contenido| - 3
  {
    if !EmpiezaConDelimitador(contenido) then contenido
    else
      var c := Rebanar(contenido, 3);
      var indice := IndiceDe(c, Delimitador);
      var indice' := indice + IndiceDe(Rebanar(c, indice), "\n") + 1;
      Rebanar(c, indice')
  }

  /**
   * An opening `---` with no closing one: the search yields -1, `slice(-1)`
   * keeps the last character, and unless that is a newline the whole note
   * is replaced by its last character.
   */
  lemma SinCierreQuedaUltimoCaracter(contenido: string)
    requires EmpiezaConDelimitador(contenido) && |contenido| > 3
    requires IndiceDe(contenido[3..], Delimitador) == -1
    requires contenido[|contenido| - 1] != '\n'
    ensures SacarFrontmatter(contenido) == [contenido[|contenido| - 1]]
  {
    var c := Rebanar(contenido, 3);
    assert c == contenido[3..];
    var ultimo := Rebanar(c, -1);
    assert ultimo == [contenido[|contenido| - 1]];
    assert !ApareceEn(ultimo, "\n", 0);
    assert IndiceDe(ultimo, "\n") == -1;
  }

  /** A concrete note of that kind: a horizontal rule at the top and no frontmatter. */
  lemma SinCierreEjemplo()
    ensures SacarFrontmatter("---\nhola") == "a"
  {
    var c: string := "\nhola";
    assert forall k :: 0 <= k <= |c| ==> !ApareceEn(c, Delimitador, k) by {
      assert c[0] == '\n' && c[1] == 'h' && c[2] == 'o' && c[3] == 'l' && c[4] == 'a';
    }
    SinCierreQuedaUltimoCaracter("---\nhola");
  }

  /**
   * A closing `---` on the last line, with no newline after it: the newline
   * search yields -1, the `+ 1` cancels it, and the closing delimiter itself
   * is returned instead of an empty body.
   */
  lemma CierreSinSaltoEjemplo()
    ensures SacarFrontmatter("---\na: 1\n---") == "---"
  {
    var contenido: string := "---\na: 1\n---";
    assert EmpiezaConDelimitador(contenido);
    var c := Rebanar(contenido, 3);
    assert c == contenido[3..] == "\na: 1\n---";
    assert ApareceEn(c, Delimitador, 6);
    assert forall k :: 0 <= k < 6 ==> !ApareceEn(c, Delimitador, k) by {
      assert c[0] == '\n' && c[1] == 'a' && c[2] == ':' && c[3] == ' ' && c[4] == '1' && c[5] == '\n';
    }
    assert IndiceDe(c, Delimitador) == 6;
    var resto := Rebanar(c, 6);
    assert resto == "---";
    SinSaltoEnDelimitador(resto);
    assert IndiceDe(resto, "\n") == -1;
  }

  /**
   * The evidently intended behaviour: no opening or no closing delimiter
   * means there is no frontmatter block and the note is kept whole; otherwise
   * the block ends with the line of the closing delimiter, and a closing
   * delimiter on the last line leaves nothing.
   */
  function SacarFrontmatterCorregido(contenido: string): (r: string)
    ensures |r| <= |contenido| && r == contenido[|contenido| - |r|..]
    ensures !EmpiezaConDelimitador(contenido) ==> r == contenido
    ensures EmpiezaConDelimitador(contenido) && IndiceDe(contenido[3..], Delimitador) == -1 ==> r == contenido
    ensures EmpiezaConDelimitador(contenido) && IndiceDe(contenido[3..], Delimitador) != -1 ==>
              |r| <= |contenido| - 6 && (r == [] || contenido[|contenido| - |r| - 1] == '\n')
  {
    if !EmpiezaConDelimitador(contenido) then contenido
    else
      var c := contenido[3..];
      var indice := IndiceDe(c, Delimitador);
      if indice == -1 then contenido
      else
        var salto := IndiceDe(c[indice..], "\n");
        if salto == -1 then []
        else
          SinSaltoEnDelimitador(c[indice..]);
          assert c[indice..][salto] == '\n';
          c[indice + salto + 1..]
  }

  /** A text that begins with the delimiter has no line break among its first three characters. */
  lemma SinSaltoEnDelimitador(t: string)
    requires ApareceEn(t, Delimitador, 0)
    ensures forall k :: 0 <= k < 3 ==> !ApareceEn(t, "\n", k)
  {
    assert t[0] == '-' && t[1] == '-' && t[2] == '-';
  }

  /** The removed block holds the closing delimiter and no line break follows it inside the block. */
  lemma {:induction false} CorregidoQuitaBloqueCompleto(contenido: string)
    requires EmpiezaConDelimitador(contenido)
    requires IndiceDe(contenido[3..], Delimitador) != -1
    ensures var r := SacarFrontmatterCorregido(contenido);
            var cierre := 3 + IndiceDe(contenido[3..], Delimitador);
            && ApareceEn(contenido, Delimitador, cierre)
            && |contenido| - |r| >= cierre + 3
            && forall k :: cierre <= k < |contenido| - |r| - 1 ==> contenido[k] != '\n'
  {
    var c := contenido[3..];
    var indice := IndiceDe(c, Delimitador);
    assert c[indice..indice + 3] == contenido[3 + indice..3 + indice + 3];
    var salto := IndiceDe(c[indice..], "\n");
    forall k | 0 <= k < salto ensures c[indice..][k] != '\n' {
      assert !ApareceEn(c[indice..], "\n", k);
      assert c[indice..][k..k + 1] == [c[indice..][k]];
    }
    if salto == -1 {
      forall k | 0 <= k < |c| - indice ensures c[indice..][k] != '\n' {
        assert !ApareceEn(c[indice..], "\n", k);
        assert c[indice..][k..k + 1] == [c[indice..][k]];
      }
      assert c[indice..][0..3] == Delimitador;
    } else {
      SinSaltoEnDelimitador(c[indice..]);
    }
  }

  /** On a well-formed block (closing delimiter followed by a newline) the code as written is already right. */
  lemma CorregidoCoincide(contenido: string)
    requires EmpiezaConDelimitador(contenido)
    requires IndiceDe(contenido[3..], Delimitador) != -1
    requires IndiceDe(contenido[3 + IndiceDe(contenido[3..], Delimitador)..], "\n") != -1
    ensures SacarFrontmatter(contenido) == SacarFrontmatterCorregido(contenido)
  {
    var c := contenido[3..];
    assert Rebanar(contenido, 3) == c;
    var indice := IndiceDe(c, Delimitador);
    assert Rebanar(c, indice) == c[indice..];
    assert contenido[3 + indice..] == c[indice..];
  }
}
