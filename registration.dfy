/**
 * The string helpers of user registration (`POST /api/registrar`) and of the WhatsApp
 * notification: the full name, the login name and the destination phone number.
 *
 * A request field the client did not send is `None`; JavaScript turns it into the text
 * "undefined" inside a template literal and treats it as false in a filter.
 */
module Registration {
  import opened Wrappers
  import opened Text

  /** `[...].filter(Boolean)`: the present, non-empty fields, in order. */
  function PresentParts(fields: seq<Option<string>>): (parts: seq<string>)
    ensures |parts| <= |fields|
    ensures forall k :: 0 <= k < |parts| ==> parts[k] != "" && Some(parts[k]) in fields
  {
    if fields == [] then []
    else (if Truthy(fields[0]) then [fields[0].value] else []) + PresentParts(fields[1..])
  }

  /** Every sent, non-empty field is kept as often as it occurs among the fields. */
  lemma {:induction false} PresentPartsCounts(fields: seq<Option<string>>, x: string)
    requires x != ""
    ensures multiset(PresentParts(fields))[x] == multiset(fields)[Some(x)]
  {
    if fields != [] {
      assert fields == [fields[0]] + fields[1..];
      PresentPartsCounts(fields[1..], x);
    }
  }

  /** The filter keeps the fields in their order: filtering a concatenation
      concatenates the filtered parts. */
  lemma {:induction false} PresentPartsConcat(a: seq<Option<string>>, b: seq<Option<string>>)
    ensures PresentParts(a + b) == PresentParts(a) + PresentParts(b)
  {
    if a == [] {
      assert a + b == b;
    } else {
      assert (a + b)[0] == a[0] && (a + b)[1..] == a[1..] + b;
      PresentPartsConcat(a[1..], b);
    }
  }

  /** The full name: the three given names and the two surnames that were sent,
      joined by single spaces. */
  function FullName(nombre1: Option<string>, nombre2: Option<string>, nombre3: Option<string>,
                    apellido1: Option<string>, apellido2: Option<string>): string
  {
    Join(PresentParts([nombre1, nombre2, nombre3, apellido1, apellido2]), ' ')
  }

  /** When no sent name part contains a space, splitting the full name at spaces gives
      back exactly the sent parts in order; when none was sent it is the empty string. */
  lemma FullNameSplitsIntoParts(nombre1: Option<string>, nombre2: Option<string>, nombre3: Option<string>,
                                apellido1: Option<string>, apellido2: Option<string>)
    requires forall f | f in [nombre1, nombre2, nombre3, apellido1, apellido2] && f.Some? :: ' ' !in f.value
    ensures var parts := PresentParts([nombre1, nombre2, nombre3, apellido1, apellido2]);
      && (parts == [] <==> FullName(nombre1, nombre2, nombre3, apellido1, apellido2) == "")
      && (parts != [] ==> Split(FullName(nombre1, nombre2, nombre3, apellido1, apellido2), ' ') == parts)
  {
    var parts := PresentParts([nombre1, nombre2, nombre3, apellido1, apellido2]);
    if parts != [] {
      SplitJoin(parts, ' ');
      JoinOfNonEmptyIsNonEmpty(parts, ' ');
    }
  }

  lemma {:induction false} JoinOfNonEmptyIsNonEmpty(parts: seq<string>, sep: char)
    requires |parts| >= 1 && parts[0] != ""
    ensures Join(parts, sep) != ""
  {
    if |parts| > 1 {
      assert Join(parts, sep)[0] == parts[0][0];
    }
  }

  /** A field as a template literal prints it. */
  function TemplateText(field: Option<string>): string
  {
    if field.None? then "undefined" else field.value
  }

  /** The login name: first given name and first surname joined by a dot, lower-cased. */
  function Username(nombre1: Option<string>, apellido1: Option<string>): (usuario: string)
    ensures IsLowerCase(usuario)
  {
    ToLowerIsIdempotent(TemplateText(nombre1) + "." + TemplateText(apellido1));
    ToLower(TemplateText(nombre1) + "." + TemplateText(apellido1))
  }

  /** Lower-casing never produces a dot from anything else. */
  lemma DotSurvivesLowerCase(s: string)
    ensures '.' in ToLower(s) <==> '.' in s
  {
    if '.' in s {
      var i :| 0 <= i < |s| && s[i] == '.';
      assert ToLower(s)[i] == '.';
    }
  }

  /** When neither name contains a dot, the login name splits at its dot into the two
      lower-cased names: it is lower-case and determined by the pair of names. */
  lemma UsernameSplitsIntoNames(nombre1: Option<string>, apellido1: Option<string>)
    requires '.' !in TemplateText(nombre1) && '.' !in TemplateText(apellido1)
    ensures Split(Username(nombre1, apellido1), '.') == [ToLower(TemplateText(nombre1)), ToLower(TemplateText(apellido1))]
  {
    var n, a := TemplateText(nombre1), TemplateText(apellido1);
    var ln, la := ToLower(n), ToLower(a);
    assert ToLower(".") == ".";
    calc {
      ToLower(n + "." + a);
      { ToLowerConcat(n + ".", a); }
      ToLower(n + ".") + la;
      { ToLowerConcat(n, "."); }
      ln + "." + la;
    }
    DotSurvivesLowerCase(n);
    DotSurvivesLowerCase(a);
    assert Join([ln, la], '.') == ln + ['.'] + la;
    SplitJoin([ln, la], '.');
  }

  /** The country code every destination number gets. */
  const CountryCode: string := "+502"

  /** The destination number: the country code followed by the digits of the phone field.
      An absent field makes `replace` throw, which the helper catches: no message. */
  function WhatsAppNumber(telefono: Option<string>): (numero: Option<string>)
    ensures numero.Some? <==> telefono.Some?
    ensures numero.Some? ==> |numero.value| >= 4 && numero.value[..4] == CountryCode
                             && AllDigits(numero.value[4..])
  {
    if telefono.None? then None
    else
      var n := CountryCode + Digits(telefono.value);
      assert n[4..] == Digits(telefono.value);
      Some(n)
  }

  /** Separators do not matter: a phone field with a non-digit between two groups of
      digits gives the same number as the groups written together, and so does a field
      that already holds only the digits. */
  lemma WhatsAppNumberIgnoresSeparators(left: string, sep: char, right: string)
    requires !IsDigit(sep)
    ensures WhatsAppNumber(Some(left + [sep] + right)) == WhatsAppNumber(Some(left + right))
    ensures WhatsAppNumber(Some(Digits(left + right))) == WhatsAppNumber(Some(left + right))
  {
    assert Digits([sep]) == "" by {
      assert [sep][1..] == [];
    }
    DigitsConcat(left + [sep], right);
    DigitsConcat(left, [sep]);
    DigitsConcat(left, right);
    assert Digits(left + [sep] + right) == Digits(left + right);
    DigitsIsIdempotent(left + right);
  }

  /** The digits after the country code are exactly the digits of the field, in order. */
  lemma WhatsAppNumberKeepsDigits(telefono: string)
    ensures WhatsAppNumber(Some(telefono)).value[4..] == Digits(telefono)
  {
  }
}
