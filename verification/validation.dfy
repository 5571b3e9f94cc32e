/**
 Admission of a new participant: the six independent checks of `validarNombre`,
 the display form produced by `formatearNombre`, and the single message that
 `mostrarError` picks out of the checks that fired.
 */
module Validation {
  import opened Text

  /** The fixed list of forbidden words: all 65 entries verbatim and in order,
      duplicates and the entry with four trailing spaces included. It is
      written as two displays joined, which keeps membership facts about it
      cheap for the verifier. */
  const Blocklist: seq<string> := [
    "idiota", "tonto", "estupido", "malo", "feo", "burro", "pendejo", "imbecil", "menso",
    "tarado", "zopenco", "gilipollas", "cretino", "subnormal", "maldito", "malparido",
    "hijo de puta", "cabron", "cabrón", "coño", "joder", "mierda", "puta", "puto",
    "chinga tu madre", "chingada", "chingar", "verga", "pija", "culo", "carajo", "pendeja",
    "zorra"
  ] + [
    "perra", "maricón", "marica", "mariconazo", "gilipollas", "capullo", "gilipollas",
    "jilipollas", "joputa", "joputa", "hijueputa", "hijueputa", "malparida", "malparido    ",
    "pendejo", "pendeja", "verga", "vergas", "chingada", "chingadas", "chingar", "chingas",
    "torpe", "tonta", "tontos", "tontas", "idiotas", "imbeciles", "imbéciles", "estúpida",
    "estúpidos", "estúpidas"
  ]

  /** One character of the class `[a-zA-ZáéíóúÁÉÍÓÚñÑ\s]`. */
  predicate AllowedChar(c: char) {
    ('a' <= c <= 'z') || ('A' <= c <= 'Z')
    || c in {'á', 'é', 'í', 'ó', 'ú', 'Á', 'É', 'Í', 'Ó', 'Ú', 'ñ', 'Ñ'}
    || IsWhitespace(c)
  }

  predicate AllAllowed(t: string) {
    forall k :: 0 <= k < |t| ==> AllowedChar(t[k])
  }

  /** `words.some(g => t.toLowerCase().includes(g.toLowerCase()))`, scanning
      the list front to back. */
  predicate SomeOccurs(t: string, words: seq<string>)
    decreases |words|
  {
    words != [] && (Includes(Lower(t), Lower(words[0])) || SomeOccurs(t, words[1..]))
  }

  /** Some forbidden word occurs in `t`, both sides lower-cased. */
  predicate Offensive(t: string) {
    SomeOccurs(t, Blocklist)
  }

  /** The scan finds a word exactly when one of the list's words occurs. */
  lemma {:induction false} SomeOccursMeaning(t: string, words: seq<string>)
    ensures SomeOccurs(t, words) <==> exists k :: 0 <= k < |words| && Includes(Lower(t), Lower(words[k]))
    decreases |words|
  {
    if words != [] {
      SomeOccursMeaning(t, words[1..]);
      if SomeOccurs(t, words[1..]) {
        var k :| 0 <= k < |words| - 1 && Includes(Lower(t), Lower(words[1..][k]));
        assert words[k + 1] == words[1..][k];
      }
      forall k | 1 <= k < |words| && Includes(Lower(t), Lower(words[k]))
        ensures SomeOccurs(t, words[1..])
      {
        assert words[1..][k - 1] == words[k];
      }
    }
  }

  /** A name is offensive exactly when some entry of the blocklist occurs in it,
      ignoring case. */
  lemma OffensiveMeaning(t: string)
    ensures Offensive(t) <==> exists g :: g in Blocklist && Includes(Lower(t), Lower(g))
  {
    SomeOccursMeaning(t, Blocklist);
  }

  /** Some participant already on the roster equals `t` ignoring case. */
  predicate DuplicateOf(t: string, roster: seq<string>) {
    exists a :: a in roster && EqualIgnoringCase(a, t)
  }

  /** What a trimmed name must satisfy to join the roster. */
  predicate Acceptable(t: string, roster: seq<string>) {
    && 3 <= |t| <= 30
    && AllAllowed(t)
    && !Offensive(t)
    && !DuplicateOf(t, roster)
  }

  /** The six checks, each computed independently of the others. */
  datatype Flags = Flags(
    empty: bool,       // vacio
    badLength: bool,   // longitud
    notLetters: bool,  // soloLetras
    offensive: bool,   // groserias
    duplicate: bool,   // duplicado
    onlySpaces: bool)  // soloEspacios
  {
    predicate AnySet() {
      empty || badLength || notLetters || offensive || duplicate || onlySpaces
    }
  }

  datatype Verdict = Verdict(valid: bool, flags: Flags, cleaned: string)

  /** `validarNombre`: trims the input, evaluates all six checks on the trimmed
      form and returns the verdict together with the display form. */
  function Validate(raw: string, roster: seq<string>): (v: Verdict)
    ensures v.valid <==> Acceptable(Trim(raw), roster)
    ensures v.valid <==> !v.flags.AnySet()
    ensures v.flags.onlySpaces <==> v.flags.empty
    ensures v.flags.empty <==> AllWhitespace(raw)
    ensures v.flags.empty ==> v.flags.badLength && v.flags.notLetters
    ensures v.flags.badLength <==> Utf16Length(Trim(raw)) < 3 || Utf16Length(Trim(raw)) > 30
    ensures v.flags.notLetters <==> !(Trim(raw) != [] && AllAllowed(Trim(raw)))
    ensures v.flags.offensive <==> Offensive(Trim(raw))
    ensures v.flags.duplicate <==> DuplicateOf(Trim(raw), roster)
    ensures v.cleaned == Format(Trim(raw))
    ensures |v.cleaned| == |Trim(raw)|
    ensures EqualIgnoringCase(v.cleaned, Trim(raw))
    ensures v.valid ==> forall a :: a in roster ==> !EqualIgnoringCase(a, v.cleaned)
  {
    var t := Trim(raw);
    var flags := Flags(
      empty := t == [],
      badLength := Utf16Length(t) < 3 || Utf16Length(t) > 30,
      notLetters := !(|t| > 0 && AllAllowed(t)),
      offensive := Offensive(t),
      duplicate := DuplicateOf(t, roster),
      onlySpaces := AllWhitespace(t));
    var cleaned := Format(t);
    AllowedIsBasicPlane(t);
    FormatKeepsLettersAndSpaces(t);
    assert t != [] ==> !AllWhitespace(t) by {
      if t != [] {
        assert !IsWhitespace(t[0]);
      }
    }
    Verdict(!flags.AnySet(), flags, cleaned)
  }

  /** Every allowed character is a single UTF-16 code unit, so JavaScript's
      length of an allowed name is its number of characters. */
  lemma AllowedIsBasicPlane(t: string)
    ensures AllAllowed(t) ==> Utf16Length(t) == |t|
  {
    if AllAllowed(t) {
      forall k | 0 <= k < |t| ensures t[k] as int <= 0xFFFF {
        assert AllowedChar(t[k]);
      }
    }
  }

  /** `s.split(' ')`: the pieces between single U+0020 characters, empty pieces kept. */
  function Split(s: string): (parts: seq<string>)
    ensures |parts| >= 1
    ensures forall k :: 0 <= k < |parts| ==> ' ' !in parts[k]
    ensures Join(parts) == s
    decreases |s|
  {
    if s == [] then [""]
    else
      var rest := Split(s[1..]);
      if s[0] == ' ' then [""] + rest
      else [[s[0]] + rest[0]] + rest[1..]
  }

  /** `parts.join(' ')`. */
  function Join(parts: seq<string>): string
    requires |parts| >= 1
    decreases |parts|
  {
    if |parts| == 1 then parts[0] else parts[0] + " " + Join(parts[1..])
  }

  /** `w.charAt(0).toUpperCase() + w.slice(1)`. */
  function Capitalize(w: string): string {
    if w == [] then [] else [UpperChar(w[0])] + w[1..]
  }

  function CapitalizeAll(ws: seq<string>): seq<string> {
    seq(|ws|, k requires 0 <= k < |ws| => Capitalize(ws[k]))
  }

  /** `formatearNombre`: lower-case everything, then upper-case the first
      character of every piece between single spaces. */
  function Format(name: string): (r: string)
    ensures |r| == |name|
    ensures forall i :: 0 <= i < |name| ==>
      r[i] == (if i == 0 || name[i - 1] == ' ' then UpperChar(LowerChar(name[i])) else LowerChar(name[i]))
  {
    var low := Lower(name);
    SplitCapitalizeJoin(low);
    CapitalizeAfterSpacesAt(low, true);
    forall j | 0 <= j < |name| ensures (low[j] == ' ') <==> (name[j] == ' ') {
      CaseKeepsWhitespace(name[j]);
    }
    Join(CapitalizeAll(Split(low)))
  }

  /** Reference definition of the capitalisation, one character at a time:
      a character is upper-cased exactly when it starts the string (and
      `atStart` holds) or follows a space. */
  function CapitalizeAfterSpaces(s: string, atStart: bool): string
    decreases |s|
  {
    if s == [] then []
    else [if atStart then UpperChar(s[0]) else s[0]] + CapitalizeAfterSpaces(s[1..], s[0] == ' ')
  }

  lemma {:induction false} CapitalizeAfterSpacesAt(s: string, atStart: bool)
    ensures |CapitalizeAfterSpaces(s, atStart)| == |s|
    ensures forall i :: 0 <= i < |s| ==>
      CapitalizeAfterSpaces(s, atStart)[i] ==
        (if (i == 0 && atStart) || (i > 0 && s[i - 1] == ' ') then UpperChar(s[i]) else s[i])
    decreases |s|
  {
    if s != [] {
      CapitalizeAfterSpacesAt(s[1..], s[0] == ' ');
      var r := CapitalizeAfterSpaces(s, atStart);
      forall i | 0 < i < |s|
        ensures r[i] == (if s[i - 1] == ' ' then UpperChar(s[i]) else s[i])
      {
        assert r[i] == CapitalizeAfterSpaces(s[1..], s[0] == ' ')[i - 1];
        assert s[1..][i - 1] == s[i];
        if i > 1 {
          assert s[1..][i - 2] == s[i - 1];
        }
      }
    }
  }

  lemma JoinConsHead(a: string, b: string, rest: seq<string>)
    ensures Join([a + b] + rest) == a + Join([b] + rest)
  {
    if rest != [] {
      assert ([a + b] + rest)[1..] == rest;
      assert ([b] + rest)[1..] == rest;
    }
  }

  /** Split, capitalise every piece and join is the character-wise reference;
      with the first piece left alone it is the reference started mid-word. */
  lemma {:induction false} SplitCapitalizeJoin(s: string)
    ensures Join(CapitalizeAll(Split(s))) == CapitalizeAfterSpaces(s, true)
    ensures Join([Split(s)[0]] + CapitalizeAll(Split(s)[1..])) == CapitalizeAfterSpaces(s, false)
    decreases |s|
  {
    if s != [] {
      SplitCapitalizeJoin(s[1..]);
      if s[0] == ' ' {
        SpaceStep(s);
      } else {
        LetterStep(s, true);
        LetterStep(s, false);
      }
    }
  }

  lemma SpaceStep(s: string)
    requires s != [] && s[0] == ' '
    requires Join(CapitalizeAll(Split(s[1..]))) == CapitalizeAfterSpaces(s[1..], true)
    ensures Join(CapitalizeAll(Split(s))) == CapitalizeAfterSpaces(s, true)
    ensures Join([Split(s)[0]] + CapitalizeAll(Split(s)[1..])) == CapitalizeAfterSpaces(s, false)
  {
    var caps := CapitalizeAll(Split(s[1..]));
    SplitAtSpace(s);
    assert Join([""] + caps) == " " + Join(caps);
    assert CapitalizeAfterSpaces(s, true) == " " + CapitalizeAfterSpaces(s[1..], true);
    assert CapitalizeAfterSpaces(s, false) == " " + CapitalizeAfterSpaces(s[1..], true);
  }

  /** A leading space closes an empty first word. */
  lemma SplitAtSpace(s: string)
    requires s != [] && s[0] == ' '
    ensures Split(s)[0] == "" && Split(s)[1..] == Split(s[1..])
    ensures CapitalizeAll(Split(s)) == [""] + CapitalizeAll(Split(s[1..]))
  {
    var rest := Split(s[1..]);
    assert Split(s) == [""] + rest;
    assert ([""] + rest)[1..] == rest;
  }

  /** A leading letter joins the first word of the rest. */
  lemma SplitAtLetter(s: string)
    requires s != [] && s[0] != ' '
    ensures Split(s) == [[s[0]] + Split(s[1..])[0]] + Split(s[1..])[1..]
    ensures Split(s)[0] == [s[0]] + Split(s[1..])[0]
    ensures Split(s)[1..] == Split(s[1..])[1..]
  {
  }

  lemma LetterStep(s: string, atStart: bool)
    requires s != [] && s[0] != ' '
    requires Join([Split(s[1..])[0]] + CapitalizeAll(Split(s[1..])[1..])) == CapitalizeAfterSpaces(s[1..], false)
    ensures atStart ==> Join(CapitalizeAll(Split(s))) == CapitalizeAfterSpaces(s, true)
    ensures !atStart ==> Join([Split(s)[0]] + CapitalizeAll(Split(s)[1..])) == CapitalizeAfterSpaces(s, false)
  {
    var rest := Split(s[1..]);
    var tail := CapitalizeAll(rest[1..]);
    var c := if atStart then UpperChar(s[0]) else s[0];
    SplitAtLetter(s);
    if atStart {
      CapitalizeFirstWord(s);
    }
    JoinConsHead([c], rest[0], tail);
    assert CapitalizeAfterSpaces(s, atStart) == [c] + CapitalizeAfterSpaces(s[1..], false);
  }

  lemma CapitalizeFirstWord(s: string)
    requires s != [] && s[0] != ' '
    ensures CapitalizeAll(Split(s)) ==
      [[UpperChar(s[0])] + Split(s[1..])[0]] + CapitalizeAll(Split(s[1..])[1..])
  {
    var w := [s[0]] + Split(s[1..])[0];
    var more := Split(s[1..])[1..];
    SplitAtLetter(s);
    CapitalizeCons(w, more);
    assert w[1..] == Split(s[1..])[0];
  }

  lemma CapitalizeCons(w: string, ws: seq<string>)
    ensures CapitalizeAll([w] + ws) == [Capitalize(w)] + CapitalizeAll(ws)
  {
    var l := CapitalizeAll([w] + ws);
    var r := [Capitalize(w)] + CapitalizeAll(ws);
    assert |l| == |r|;
    forall k | 0 <= k < |l| ensures l[k] == r[k] {
      if k > 0 {
        assert ([w] + ws)[k] == ws[k - 1];
      }
    }
  }

  /** The display form differs from its input only in letter case, and keeps every space in place. */
  lemma FormatKeepsLettersAndSpaces(name: string)
    ensures |Format(name)| == |name|
    ensures EqualIgnoringCase(Format(name), name)
    ensures forall i :: 0 <= i < |name| ==> (Format(name)[i] == ' ' <==> name[i] == ' ')
    ensures forall i :: 0 <= i < |name| ==> (IsWhitespace(Format(name)[i]) <==> IsWhitespace(name[i]))
  {
    var r := Format(name);
    forall i | 0 <= i < |name|
      ensures LowerChar(r[i]) == LowerChar(name[i])
      ensures r[i] == ' ' <==> name[i] == ' '
      ensures IsWhitespace(r[i]) <==> IsWhitespace(name[i])
    {
      LowerUpperLower(name[i]);
      CaseKeepsWhitespace(name[i]);
      CaseKeepsWhitespace(LowerChar(name[i]));
      if i == 0 || name[i - 1] == ' ' {
        assert r[i] == UpperChar(LowerChar(name[i]));
      } else {
        assert r[i] == LowerChar(name[i]);
      }
    }
  }

  /** Formatting an already formatted name changes nothing. */
  lemma FormatIdempotent(name: string)
    ensures Format(Format(name)) == Format(name)
  {
    var r := Format(name);
    FormatKeepsLettersAndSpaces(name);
    forall i | 0 <= i < |name| ensures Format(r)[i] == r[i] {
      LowerUpperLower(name[i]);
      assert LowerChar(r[i]) == LowerChar(name[i]);
    }
  }

  /** The messages of `mostrarError`, plus the empty message it leaves when no check fired. */
  datatype Message =
    | EnterName        // 'Por favor, ingresa un nombre'
    | LengthRange      // 'El nombre debe tener entre 3 y 30 caracteres'
    | LettersOnly      // 'Solo se permiten letras y espacios'
    | Inappropriate    // 'No se permiten palabras inapropiadas'
    | AlreadyAdded     // 'Este nombre ya fue agregado'
    | EnterValidName   // 'Ingresa un nombre válido'
    | NoMessage        // ''

  /** The check each message reports. */
  predicate Reports(m: Message, f: Flags) {
    match m
    case EnterName => f.empty
    case LengthRange => f.badLength
    case LettersOnly => f.notLetters
    case Inappropriate => f.offensive
    case AlreadyAdded => f.duplicate
    case EnterValidName => f.onlySpaces
    case NoMessage => false
  }

  /** Position of each message in the priority order. */
  function Priority(m: Message): nat {
    match m
    case EnterName => 0
    case LengthRange => 1
    case LettersOnly => 2
    case Inappropriate => 3
    case AlreadyAdded => 4
    case EnterValidName => 5
    case NoMessage => 6
  }

  /** `mostrarError`: the message of the highest-priority check that fired. */
  function ErrorMessage(f: Flags): (m: Message)
    ensures m == NoMessage <==> !f.AnySet()
    ensures m != NoMessage ==> Reports(m, f)
    ensures forall m' :: Priority(m') < Priority(m) ==> !Reports(m', f)
  {
    if f.empty then EnterName
    else if f.badLength then LengthRange
    else if f.notLetters then LettersOnly
    else if f.offensive then Inappropriate
    else if f.duplicate then AlreadyAdded
    else if f.onlySpaces then EnterValidName
    else NoMessage
  }

  /** Every check is reported, not just the first one that fails: a name too
      long to admit shows the length message whatever else is wrong with it. */
  lemma LengthOutranksLaterChecks(raw: string, roster: seq<string>)
    requires Utf16Length(Trim(raw)) > 30
    ensures Validate(raw, roster).flags.badLength
    ensures ErrorMessage(Validate(raw, roster).flags) == LengthRange
  {
  }

  /** On a verdict of `Validate`, a message is shown exactly when the name is
      refused, and the whitespace-only message is never the one shown: that
      check fires only together with the emptiness check, which outranks it. */
  lemma RejectionMessage(raw: string, roster: seq<string>)
    ensures var v := Validate(raw, roster);
      && (ErrorMessage(v.flags) == NoMessage <==> v.valid)
      && ErrorMessage(v.flags) != EnterValidName
      && (Trim(raw) == [] ==> ErrorMessage(v.flags) == EnterName)
  {
  }
}
