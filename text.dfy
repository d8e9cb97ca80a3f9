/**
 * String and sequence helpers that stand for the JavaScript built-ins the server and the
 * client rely on: String.prototype.toLowerCase, `replace(/\D/g, "")`, `endsWith`,
 * `join` and `split` with a one-character separator, and the first-occurrence order in
 * which a JavaScript object or Set enumerates the keys inserted into it.
 */
module Text {
  import opened Wrappers

  /** JavaScript truthiness of an optional string: present and non-empty. */
  predicate Truthy(field: Option<string>)
  {
    field.Some? && field.value != ""
  }

  // ---------------------------------------------------------------------------
  // Lower-casing
  // ---------------------------------------------------------------------------

  /** True of the upper-case letters whose lower-case form this model knows. */
  predicate IsUpper(c: char)
  {
    || 'A' <= c <= 'Z'
    || ('\U{C0}' <= c <= '\U{DE}' && c != '\U{D7}')
    || '\U{400}' <= c <= '\U{42F}'
  }

  /** toLowerCase on one character: ASCII, Latin-1 and basic Cyrillic capitals. */
  function LowerChar(c: char): (r: char)
    ensures IsUpper(c) ==> r != c && !IsUpper(r)
    ensures !IsUpper(c) ==> r == c
  {
    if 'A' <= c <= 'Z' || ('\U{C0}' <= c <= '\U{DE}' && c != '\U{D7}') || '\U{410}' <= c <= '\U{42F}' then
      (c as int + 32) as char
    else if '\U{400}' <= c <= '\U{40F}' then
      (c as int + 80) as char
    else
      c
  }

  /** String.prototype.toLowerCase, character by character. */
  function ToLower(s: string): (r: string)
    ensures |r| == |s|
    ensures forall i :: 0 <= i < |s| ==> r[i] == LowerChar(s[i])
  {
    if s == [] then [] else [LowerChar(s[0])] + ToLower(s[1..])
  }

  /** A string that lower-casing leaves as it is. */
  predicate IsLowerCase(s: string)
  {
    forall i :: 0 <= i < |s| ==> !IsUpper(s[i])
  }

  /** Lower-casing yields a lower-case string, so applying it twice changes nothing. */
  lemma ToLowerIsIdempotent(s: string)
    ensures IsLowerCase(ToLower(s))
    ensures ToLower(ToLower(s)) == ToLower(s)
  {
    var t := ToLower(s);
    assert forall i :: 0 <= i < |t| ==> LowerChar(t[i]) == t[i];
  }

  /** Lower-casing distributes over concatenation. */
  lemma {:induction false} ToLowerConcat(a: string, b: string)
    ensures ToLower(a + b) == ToLower(a) + ToLower(b)
  {
    var l, r := ToLower(a + b), ToLower(a) + ToLower(b);
    assert |l| == |r|;
    forall i | 0 <= i < |l| ensures l[i] == r[i] {
      if i < |a| {
        assert (a + b)[i] == a[i];
      } else {
        assert (a + b)[i] == b[i - |a|];
      }
    }
  }

  // ---------------------------------------------------------------------------
  // Digits
  // ---------------------------------------------------------------------------

  /** The characters JavaScript's `\d` matches. */
  predicate IsDigit(c: char)
  {
    '0' <= c <= '9'
  }

  predicate AllDigits(s: string)
  {
    forall i :: 0 <= i < |s| ==> IsDigit(s[i])
  }

  /** `s.replace(/\D/g, "")`: the digits of `s`, in order. */
  function Digits(s: string): (r: string)
    ensures AllDigits(r)
    ensures |r| <= |s|
  {
    if s == [] then ""
    else (if IsDigit(s[0]) then [s[0]] else "") + Digits(s[1..])
  }

  /** A string made only of digits is its own digit string. */
  lemma {:induction false} DigitsOfDigitString(s: string)
    requires AllDigits(s)
    ensures Digits(s) == s
  {
    if s != [] {
      DigitsOfDigitString(s[1..]);
    }
  }

  /** Stripping non-digits twice is stripping them once. */
  lemma DigitsIsIdempotent(s: string)
    ensures Digits(Digits(s)) == Digits(s)
  {
    DigitsOfDigitString(Digits(s));
  }

  /** Digit extraction keeps the order of the digits across a concatenation. */
  lemma {:induction false} DigitsConcat(a: string, b: string)
    ensures Digits(a + b) == Digits(a) + Digits(b)
  {
    if a == [] {
      assert a + b == b;
    } else {
      var head := if IsDigit(a[0]) then [a[0]] else "";
      assert (a + b)[0] == a[0];
      assert (a + b)[1..] == a[1..] + b;
      assert Digits(a + b) == head + Digits(a[1..] + b);
      assert Digits(a) == head + Digits(a[1..]);
      DigitsConcat(a[1..], b);
    }
  }

  // ---------------------------------------------------------------------------
  // Whitespace and trim
  // ---------------------------------------------------------------------------

  /** The characters JavaScript's `\s` matches and `trim` removes. */
  predicate IsJsWhitespace(c: char)
  {
    || c == '\t' || c == '\n' || c == '\U{B}' || c == '\U{C}' || c == '\r' || c == ' '
    || c == '\U{A0}' || c == '\U{1680}' || '\U{2000}' <= c <= '\U{200A}'
    || c == '\U{2028}' || c == '\U{2029}' || c == '\U{202F}' || c == '\U{205F}'
    || c == '\U{3000}' || c == '\U{FEFF}'
  }

  /** `s` with its leading whitespace removed. */
  function TrimStart(s: string): (r: string)
    ensures |r| <= |s| && r == s[|s| - |r|..]
    ensures r == [] || !IsJsWhitespace(r[0])
    ensures forall i :: 0 <= i < |s| - |r| ==> IsJsWhitespace(s[i])
  {
    if s != [] && IsJsWhitespace(s[0]) then
      var r := TrimStart(s[1..]);
      assert s[1..][|s| - 1 - |r|..] == s[|s| - |r|..];
      assert forall i :: 1 <= i < |s| - |r| ==> s[i] == s[1..][i - 1];
      r
    else s
  }

  /** `s` with its trailing whitespace removed. */
  function TrimEnd(s: string): (r: string)
    ensures |r| <= |s| && r == s[..|r|]
    ensures r == [] || !IsJsWhitespace(r[|r| - 1])
    ensures forall i :: |r| <= i < |s| ==> IsJsWhitespace(s[i])
  {
    if s != [] && IsJsWhitespace(s[|s| - 1]) then
      var r := TrimEnd(s[..|s| - 1]);
      assert s[..|s| - 1][..|r|] == s[..|r|];
      assert forall i :: |r| <= i < |s| - 1 ==> s[i] == s[..|s| - 1][i];
      r
    else s
  }

  /** String.prototype.trim. */
  function Trim(s: string): string
  {
    TrimEnd(TrimStart(s))
  }

  /** Trimming leaves a slice of the string that neither starts nor ends with
      whitespace, and it leaves nothing exactly when the string is all whitespace. */
  lemma TrimProperties(s: string)
    ensures var r := Trim(s);
      && (exists a, b :: 0 <= a <= b <= |s| && r == s[a..b])
      && (r != [] ==> !IsJsWhitespace(r[0]) && !IsJsWhitespace(r[|r| - 1]))
      && (r == [] <==> forall i :: 0 <= i < |s| ==> IsJsWhitespace(s[i]))
  {
    TrimIsSlice(s);
    TrimEndsAreNotWhitespace(s);
    TrimIsEmptyIffAllWhitespace(s);
  }

  lemma TrimIsSlice(s: string)
    ensures exists a, b :: 0 <= a <= b <= |s| && Trim(s) == s[a..b]
  {
    var t := TrimStart(s);
    var a := |s| - |t|;
    assert Trim(s) == s[a..a + |TrimEnd(t)|];
  }

  /** Trimming only removes characters: every character left was in the string. */
  lemma TrimKeepsOnlyCharactersOf(s: string)
    ensures forall c | c in Trim(s) :: c in s
  {
    var t := TrimStart(s);
    var r := TrimEnd(t);
    forall c | c in r ensures c in s {
      var i :| 0 <= i < |r| && r[i] == c;
      assert t[i] == c;
      assert s[|s| - |t| + i] == c;
    }
  }

  lemma TrimEndsAreNotWhitespace(s: string)
    ensures var r := Trim(s);
      r != [] ==> !IsJsWhitespace(r[0]) && !IsJsWhitespace(r[|r| - 1])
  {
    var t := TrimStart(s);
    var r := TrimEnd(t);
    if r != [] {
      assert t != [] && r[0] == t[0];
    }
  }

  lemma TrimIsEmptyIffAllWhitespace(s: string)
    ensures Trim(s) == [] <==> forall i :: 0 <= i < |s| ==> IsJsWhitespace(s[i])
  {
    var t := TrimStart(s);
    if TrimEnd(t) == [] {
      // `t` does not start with whitespace, yet all of it was trimmed off its end
      assert t == [];
    } else {
      TrimStartKeepsNonWhitespace(s);
    }
  }

  /** What remains after trimming the start begins with a character of the string that
      is not whitespace. */
  lemma TrimStartKeepsNonWhitespace(s: string)
    ensures TrimStart(s) != [] ==> !IsJsWhitespace(s[|s| - |TrimStart(s)|])
  {
    var t := TrimStart(s);
    if t != [] {
      assert t[0] == s[|s| - |t|];
    }
  }

  /** A string that neither starts nor ends with whitespace is its own trim. */
  lemma TrimOfTrimmed(s: string)
    requires s != [] ==> !IsJsWhitespace(s[0]) && !IsJsWhitespace(s[|s| - 1])
    ensures Trim(s) == s
  {
  }

  // ---------------------------------------------------------------------------
  // Suffixes, join and split
  // ---------------------------------------------------------------------------

  /** String.prototype.endsWith. */
  predicate EndsWith(s: string, suffix: string)
  {
    |suffix| <= |s| && s[|s| - |suffix|..] == suffix
  }

  /** Array.prototype.join with a one-character separator. */
  function Join(parts: seq<string>, sep: char): string
  {
    if |parts| == 0 then ""
    else if |parts| == 1 then parts[0]
    else parts[0] + [sep] + Join(parts[1..], sep)
  }

  /** The index of the first occurrence of `c` in `s`. */
  function IndexOf(s: string, c: char): (i: nat)
    requires c in s
    ensures i < |s| && s[i] == c && c !in s[..i]
  {
    if s[0] == c then 0
    else
      var j := IndexOf(s[1..], c);
      assert s[..j + 1] == [s[0]] + s[1..][..j];
      j + 1
  }

  /** String.prototype.split with a one-character separator: never empty, and an
      empty string splits into one empty piece. */
  function Split(s: string, sep: char): (r: seq<string>)
    ensures |r| >= 1
    decreases |s|
  {
    if sep !in s then [s]
    else
      var i := IndexOf(s, sep);
      [s[..i]] + Split(s[i + 1..], sep)
  }

  /** The first piece of a split is the text before the first separator. */
  lemma SplitHead(s: string, sep: char)
    ensures sep !in Split(s, sep)[0]
    ensures sep !in s ==> Split(s, sep)[0] == s
    ensures sep in s ==> Split(s, sep)[0] == s[..IndexOf(s, sep)]
  {
  }

  /** Splitting a non-empty joined list gives the list back when no piece contains the
      separator. */
  lemma {:induction false} SplitJoin(parts: seq<string>, sep: char)
    requires |parts| >= 1
    requires forall k :: 0 <= k < |parts| ==> sep !in parts[k]
    ensures Split(Join(parts, sep), sep) == parts
  {
    if |parts| > 1 {
      var p, rest := parts[0], Join(parts[1..], sep);
      var s := p + [sep] + rest;
      assert sep in s by { assert s[|p|] == sep; }
      IndexOfAfterPrefix(p, sep, rest);
      assert s[..|p|] == p;
      assert s[|p| + 1..] == rest;
      SplitJoin(parts[1..], sep);
    }
  }

  /** The first separator in `p`, separator, `rest` is the one after `p` when `p` has none. */
  lemma {:induction false} IndexOfAfterPrefix(p: string, sep: char, rest: string)
    requires sep !in p
    ensures sep in p + [sep] + rest && IndexOf(p + [sep] + rest, sep) == |p|
  {
    var s := p + [sep] + rest;
    assert s[|p|] == sep;
    if p != [] {
      assert s[0] == p[0];
      assert s[1..] == p[1..] + [sep] + rest;
      IndexOfAfterPrefix(p[1..], sep, rest);
    }
  }

  // ---------------------------------------------------------------------------
  // First-occurrence order
  // ---------------------------------------------------------------------------

  predicate NoDuplicates<T(==)>(s: seq<T>)
  {
    forall i, j :: 0 <= i < j < |s| ==> s[i] != s[j]
  }

  /** The distinct elements of `s` in order of first occurrence: the key order of a
      JavaScript object or Set filled from `s` one element at a time. */
  function Distinct<T(==)>(s: seq<T>): (r: seq<T>)
    ensures forall x | x in r :: x in s
    ensures forall x | x in s :: x in r
    ensures NoDuplicates(r)
    decreases |s|
  {
    if s == [] then []
    else
      var d := Distinct(s[..|s| - 1]);
      assert forall x | x in s :: x in s[..|s| - 1] || x == s[|s| - 1];
      if s[|s| - 1] in d then d else d + [s[|s| - 1]]
  }

  /** One more element extends the first-occurrence order only when it is new. */
  lemma DistinctSnoc<T>(s: seq<T>, x: T)
    ensures Distinct(s + [x]) == if x in s then Distinct(s) else Distinct(s) + [x]
  {
    assert (s + [x])[..|s + [x]| - 1] == s;
  }

  /** A sequence without duplicates has as many elements as the set of its elements. */
  lemma {:induction false} NoDuplicatesCardinality<T>(s: seq<T>)
    requires NoDuplicates(s)
    ensures |set x | x in s| == |s|
  {
    if s != [] {
      var init := s[..|s| - 1];
      var last := s[|s| - 1];
      NoDuplicatesCardinality(init);
      assert (set x | x in s) == (set x | x in init) + {last};
      assert last !in (set x | x in init);
    }
  }

  /** The number of distinct elements is the size of the set of elements. */
  lemma DistinctCount<T>(s: seq<T>)
    ensures |Distinct(s)| == |set x | x in s|
  {
    var d := Distinct(s);
    NoDuplicatesCardinality(d);
    assert (set x | x in d) == (set x | x in s);
  }
}
