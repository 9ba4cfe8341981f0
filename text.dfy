/** Character-level text operations of rdv_generator.py: `sanitize_filename`,
    `normalize`, Python's `str.lower()` and the substring test `p in s`.

    Python's full Unicode tables are not modelled.  `Lower` and `Decompose`
    (the NFD table) cover ASCII and the accented letters of French; every
    other character is left as it is by both. */
module Text {

  /** Unicode general category Mn restricted to the block of combining
      diacritical marks (U+0300..U+036F), all of which are Mn. */
  predicate IsMark(c: char)
  {
    '\U{0300}' <= c <= '\U{036F}'
  }

  predicate IsAscii(c: char)
  {
    c < '\U{0080}'
  }

  /** The accented capitals of the table, mapped to their lower-case forms. */
  predicate IsAccentedCapital(c: char)
  {
    c in {'À', 'Â', 'Ç', 'É', 'È', 'Ê', 'Ë', 'Î', 'Ï', 'Ô', 'Ù', 'Û', 'Ü'}
  }

  /** `str.lower()` on one character. */
  function Lower(c: char): (r: char)
    ensures IsMark(r) <==> IsMark(c)
    ensures IsAscii(r) <==> IsAscii(c)
    ensures r != c <==> ('A' <= c <= 'Z' || IsAccentedCapital(c))
    ensures !('A' <= r <= 'Z') && !IsAccentedCapital(r)
    ensures !IsDecomposable(c) ==> !IsDecomposable(r)
  {
    if 'A' <= c <= 'Z' then (c as int + 32) as char
    else match c
      case 'À' => 'à'
      case 'Â' => 'â'
      case 'Ç' => 'ç'
      case 'É' => 'é'
      case 'È' => 'è'
      case 'Ê' => 'ê'
      case 'Ë' => 'ë'
      case 'Î' => 'î'
      case 'Ï' => 'ï'
      case 'Ô' => 'ô'
      case 'Ù' => 'ù'
      case 'Û' => 'û'
      case 'Ü' => 'ü'
      case _ => c
  }

  /** `s.lower()`: one character in, one character out. */
  function LowerAll(s: string): (r: string)
    ensures |r| == |s|
    ensures forall i :: 0 <= i < |s| ==> r[i] == Lower(s[i])
  {
    seq(|s|, i requires 0 <= i < |s| => Lower(s[i]))
  }

  /** Canonical decomposition (NFD) of one character: an accented letter of
      the table becomes its base letter followed by its combining mark. */
  function Decompose(c: char): (r: string)
  {
    match c
      case 'à' => "a\U{0300}"
      case 'â' => "a\U{0302}"
      case 'ç' => "c\U{0327}"
      case 'é' => "e\U{0301}"
      case 'è' => "e\U{0300}"
      case 'ê' => "e\U{0302}"
      case 'ë' => "e\U{0308}"
      case 'î' => "i\U{0302}"
      case 'ï' => "i\U{0308}"
      case 'ô' => "o\U{0302}"
      case 'ù' => "u\U{0300}"
      case 'û' => "u\U{0302}"
      case 'ü' => "u\U{0308}"
      case 'À' => "A\U{0300}"
      case 'Â' => "A\U{0302}"
      case 'Ç' => "C\U{0327}"
      case 'É' => "E\U{0301}"
      case 'È' => "E\U{0300}"
      case 'Ê' => "E\U{0302}"
      case 'Ë' => "E\U{0308}"
      case 'Î' => "I\U{0302}"
      case 'Ï' => "I\U{0308}"
      case 'Ô' => "O\U{0302}"
      case 'Ù' => "U\U{0300}"
      case 'Û' => "U\U{0302}"
      case 'Ü' => "U\U{0308}"
      case _ => [c]
  }

  /** The characters `Decompose` splits. */
  predicate IsDecomposable(c: char)
  {
    || c in {'à', 'â', 'ç', 'é', 'è', 'ê', 'ë', 'î', 'ï', 'ô', 'ù', 'û', 'ü'}
    || IsAccentedCapital(c)
  }

  lemma DecomposeShape(c: char)
    ensures IsDecomposable(c) ==>
              && |Decompose(c)| == 2 && IsAscii(Decompose(c)[0])
              && !IsMark(Decompose(c)[0]) && IsMark(Decompose(c)[1])
    ensures IsAscii(c) || IsMark(c) ==> !IsDecomposable(c)
  {
  }

  lemma DecomposeParts(c: char)
    ensures forall x :: x in Decompose(c) ==> !IsDecomposable(x)
  {
    DecomposeShape(c);
    if IsDecomposable(c) {
      DecomposeShape(Decompose(c)[0]);
      DecomposeShape(Decompose(c)[1]);
    }
  }

  /** `unicodedata.normalize('NFD', s)`. */
  function Nfd(s: string): (r: string)
  {
    if s == [] then [] else Decompose(s[0]) + Nfd(s[1..])
  }

  /** NFD output has no letter left to decompose. */
  lemma {:induction false} NfdDecomposed(s: string)
    ensures forall c :: c in Nfd(s) ==> !IsDecomposable(c)
  {
    if s != [] {
      DecomposeParts(s[0]);
      NfdDecomposed(s[1..]);
    }
  }

  /** Keeps the characters whose category is not Mn, in order. */
  function DropMarks(s: string): (r: string)
    ensures |r| <= |s|
    ensures forall i :: 0 <= i < |r| ==> !IsMark(r[i])
  {
    if s == [] then [] else (if IsMark(s[0]) then [] else [s[0]]) + DropMarks(s[1..])
  }

  lemma {:induction false} DropMarksSubset(s: string)
    ensures forall c :: c in DropMarks(s) ==> c in s
  {
    if s != [] {
      DropMarksSubset(s[1..]);
    }
  }

  /** `s.replace(a, b)` for one-character `a` and `b`. */
  function ReplaceChar(s: string, a: char, b: char): (r: string)
    ensures |r| == |s|
    ensures forall i :: 0 <= i < |s| ==> r[i] == if s[i] == a then b else s[i]
  {
    seq(|s|, i requires 0 <= i < |s| => if s[i] == a then b else s[i])
  }

  /** `normalize` (rdv_generator.py:16-17): NFD, drop the combining marks,
      lower-case, then `_` and `-` become spaces. */
  function Normalize(s: string): (r: string)
    ensures forall i :: 0 <= i < |r| ==> r[i] != '_' && r[i] != '-' && !IsMark(r[i])
  {
    ReplaceChar(ReplaceChar(LowerAll(DropMarks(Nfd(s))), '_', ' '), '-', ' ')
  }

  /** What `normalize` does to one character that NFD leaves alone. */
  function FoldChar(c: char): char
  {
    if c == '_' || c == '-' then ' ' else Lower(c)
  }

  lemma {:induction false} NfdIdentity(s: string)
    requires forall i :: 0 <= i < |s| ==> !IsDecomposable(s[i])
    ensures Nfd(s) == s
  {
    if s != [] {
      NfdIdentity(s[1..]);
    }
  }

  lemma {:induction false} DropMarksIdentity(s: string)
    requires forall i :: 0 <= i < |s| ==> !IsMark(s[i])
    ensures DropMarks(s) == s
  {
    if s != [] {
      DropMarksIdentity(s[1..]);
    }
  }

  /** On text without marks and without letters that NFD splits (ASCII text
      in particular) `normalize` maps each character on its own and keeps
      the length. */
  lemma NormalizePerChar(s: string)
    requires forall i :: 0 <= i < |s| ==> !IsDecomposable(s[i]) && !IsMark(s[i])
    ensures |Normalize(s)| == |s|
    ensures forall i :: 0 <= i < |s| ==> Normalize(s)[i] == FoldChar(s[i])
  {
    NfdIdentity(s);
    DropMarksIdentity(s);
  }

  lemma NormalizeAscii(s: string)
    requires forall i :: 0 <= i < |s| ==> IsAscii(s[i])
    ensures |Normalize(s)| == |s|
    ensures forall i :: 0 <= i < |s| ==> Normalize(s)[i] == FoldChar(s[i])
  {
    forall i | 0 <= i < |s|
      ensures !IsDecomposable(s[i]) && !IsMark(s[i])
    {
      DecomposeShape(s[i]);
    }
    NormalizePerChar(s);
  }

  /** Normalising twice is normalising once. */
  lemma NormalizeIdempotent(s: string)
    ensures Normalize(Normalize(s)) == Normalize(s)
  {
    var d := DropMarks(Nfd(s));
    NfdDecomposed(s);
    DropMarksSubset(Nfd(s));
    var l := LowerAll(d);
    var u := ReplaceChar(l, '_', ' ');
    var r := ReplaceChar(u, '-', ' ');
    assert r == Normalize(s);
    forall i | 0 <= i < |r|
      ensures !IsDecomposable(r[i]) && !IsMark(r[i]) && FoldChar(r[i]) == r[i]
    {
      assert d[i] in d && d[i] in Nfd(s);
      assert !IsDecomposable(d[i]) && !IsMark(d[i]);
      assert l[i] == Lower(d[i]);
      assert !IsDecomposable(l[i]) && !IsMark(l[i]);
      DecomposeShape(' ');
    }
    NormalizePerChar(r);
  }

  lemma {:induction false} NfdAppend(a: string, b: string)
    ensures Nfd(a + b) == Nfd(a) + Nfd(b)
  {
    if a != [] {
      assert (a + b)[1..] == a[1..] + b;
      NfdAppend(a[1..], b);
    } else {
      assert a + b == b;
    }
  }

  lemma {:induction false} DropMarksAppend(a: string, b: string)
    ensures DropMarks(a + b) == DropMarks(a) + DropMarks(b)
  {
    if a != [] {
      assert (a + b)[1..] == a[1..] + b;
      DropMarksAppend(a[1..], b);
    } else {
      assert a + b == b;
    }
  }

  /** `normalize` works piecewise: it commutes with concatenation. */
  lemma NormalizeAppend(a: string, b: string)
    ensures Normalize(a + b) == Normalize(a) + Normalize(b)
  {
    NfdAppend(a, b);
    var da, db := DropMarks(Nfd(a)), DropMarks(Nfd(b));
    DropMarksAppend(Nfd(a), Nfd(b));
    LowerAllAppend(da, db);
    var la, lb := LowerAll(da), LowerAll(db);
    ReplaceCharAppend(la, lb, '_', ' ');
    ReplaceCharAppend(ReplaceChar(la, '_', ' '), ReplaceChar(lb, '_', ' '), '-', ' ');
  }

  lemma LowerAllAppend(a: string, b: string)
    ensures LowerAll(a + b) == LowerAll(a) + LowerAll(b)
  {
    var l, r := LowerAll(a + b), LowerAll(a) + LowerAll(b);
    forall i | 0 <= i < |l| ensures l[i] == r[i] {
      if i < |a| {
        assert (a + b)[i] == a[i];
      } else {
        assert (a + b)[i] == b[i - |a|];
      }
    }
  }

  lemma ReplaceCharAppend(a: string, b: string, x: char, y: char)
    ensures ReplaceChar(a + b, x, y) == ReplaceChar(a, x, y) + ReplaceChar(b, x, y)
  {
    var l, r := ReplaceChar(a + b, x, y), ReplaceChar(a, x, y) + ReplaceChar(b, x, y);
    forall i | 0 <= i < |l| ensures l[i] == r[i] {
      if i < |a| {
        assert (a + b)[i] == a[i];
      } else {
        assert (a + b)[i] == b[i - |a|];
      }
    }
  }

  /** A letter that NFD splits into a base letter and a mark normalises to
      the lower-case base letter. */
  lemma NormalizeDecomposed(c: char, base: char, mark: char)
    requires Decompose(c) == [base, mark]
    requires IsMark(mark) && 'A' <= base <= 'z'
    ensures Normalize([c]) == [Lower(base)]
  {
    assert [c][1..] == [];
    assert Nfd([c]) == [base, mark];
    assert [base, mark] == [base] + [mark];
    DropMarksAppend([base], [mark]);
    assert DropMarks([mark]) == [];
    assert DropMarks([base]) == [base];
  }

  /** Normalising ASCII text, given the expected characters one by one. */
  lemma NormalizesTo(s: string, t: string)
    requires forall i :: 0 <= i < |s| ==> IsAscii(s[i])
    requires |t| == |s| && forall i :: 0 <= i < |s| ==> t[i] == FoldChar(s[i])
    ensures Normalize(s) == t
  {
    NormalizeAscii(s);
  }

  /** Text made only of the letters 'a' to 'z' is already in normal form. */
  lemma LowerLettersAreNormal(s: string)
    requires forall i :: 0 <= i < |s| ==> 'a' <= s[i] <= 'z'
    ensures Normalize(s) == s
  {
    forall i | 0 <= i < |s|
      ensures IsAscii(s[i]) && s[i] == FoldChar(s[i])
    {
    }
    NormalizesTo(s, s);
  }

  /** Normalising ASCII text around one accented letter. */
  lemma NormalizesAroundAccent(a: string, c: char, base: char, mark: char, b: string,
                               ta: string, tb: string)
    requires forall i :: 0 <= i < |a| ==> IsAscii(a[i])
    requires forall i :: 0 <= i < |b| ==> IsAscii(b[i])
    requires |ta| == |a| && forall i :: 0 <= i < |a| ==> ta[i] == FoldChar(a[i])
    requires |tb| == |b| && forall i :: 0 <= i < |b| ==> tb[i] == FoldChar(b[i])
    requires Decompose(c) == [base, mark] && IsMark(mark) && 'A' <= base <= 'z'
    ensures Normalize(a + [c] + b) == ta + [Lower(base)] + tb
  {
    NormalizeAppend(a + [c], b);
    NormalizeAppend(a, [c]);
    NormalizesTo(a, ta);
    NormalizesTo(b, tb);
    NormalizeDecomposed(c, base, mark);
  }

  /** Accents are dropped and capitals lowered: "Année" normalises to
      "annee", and "OPHÉLIE" and "Ophélie" both to "ophelie" (the accented
      letter is written as a piece of its own). */
  lemma NormalizeAccentExamples()
    ensures Normalize("Ann" + "é" + "e") == "annee"
    ensures Normalize("OPH" + "É" + "LIE") == "ophelie"
    ensures Normalize("Oph" + "é" + "lie") == "ophelie"
  {
    assert "é" == ['é'] && "É" == ['É'];
    NormalizesAroundAccent("Ann", 'é', 'e', '\U{0301}', "e", "ann", "e");
    NormalizesAroundAccent("OPH", 'É', 'E', '\U{0301}', "LIE", "oph", "lie");
    NormalizesAroundAccent("Oph", 'é', 'e', '\U{0301}', "lie", "oph", "lie");
  }

  lemma NormalizeSeparatorExample()
    ensures Normalize("Nom_du-Commercial") == "nom du commercial"
  {
    NormalizesTo("Nom_du-Commercial", "nom du commercial");
  }

  /** `sanitize_filename` (rdv_generator.py:13-14). */
  function SanitizeFilename(name: string): (r: string)
    ensures |r| == |name|
    ensures forall i :: 0 <= i < |r| ==> r[i] != ' ' && r[i] != '/'
    ensures forall i :: 0 <= i < |r| && name[i] != ' ' && name[i] != '/' ==> r[i] == name[i]
    ensures forall i :: 0 <= i < |r| && name[i] == ' ' ==> r[i] == '_'
    ensures forall i :: 0 <= i < |r| && name[i] == '/' ==> r[i] == '-'
  {
    ReplaceChar(ReplaceChar(name, ' ', '_'), '/', '-')
  }

  lemma SanitizeIdempotent(name: string)
    ensures SanitizeFilename(SanitizeFilename(name)) == SanitizeFilename(name)
  {
  }

  /** Python's `p in s` on strings. */
  function Contains(s: string, p: string): bool
  {
    p <= s || (s != [] && Contains(s[1..], p))
  }

  /** `p` occurs in `s` starting at offset `i`. */
  predicate OccursAt(s: string, p: string, i: nat)
  {
    i + |p| <= |s| && s[i..i + |p|] == p
  }

  /** `Contains` holds exactly when `p` occurs at some offset of `s`. */
  lemma {:induction false} ContainsIff(s: string, p: string)
    ensures Contains(s, p) <==> exists i: nat :: OccursAt(s, p, i)
  {
    if p <= s {
      assert OccursAt(s, p, 0);
    } else if s == [] {
    } else {
      ContainsIff(s[1..], p);
      if Contains(s[1..], p) {
        var i: nat :| OccursAt(s[1..], p, i);
        assert OccursAt(s, p, i + 1);
      }
      if exists i: nat :: OccursAt(s, p, i) {
        var i: nat :| OccursAt(s, p, i);
        assert i != 0;
        assert OccursAt(s[1..], p, i - 1);
      }
    }
  }

  /** Every character of a contained text is a character of the text. */
  lemma ContainsKeepsChars(s: string, p: string)
    ensures Contains(s, p) ==> forall j :: 0 <= j < |p| ==> p[j] in s
  {
    ContainsIff(s, p);
    if Contains(s, p) {
      var i: nat :| OccursAt(s, p, i);
      forall j | 0 <= j < |p| ensures p[j] in s {
        assert p[j] == s[i..i + |p|][j] == s[i + j];
      }
    }
  }

  /** Python's `a < b` on strings: code-point order, a proper prefix first. */
  predicate StrLess(a: string, b: string)
  {
    if a == [] then b != []
    else if b == [] then false
    else a[0] < b[0] || (a[0] == b[0] && StrLess(a[1..], b[1..]))
  }

  lemma {:induction false} StrLessIrreflexive(a: string)
    ensures !StrLess(a, a)
  {
    if a != [] {
      StrLessIrreflexive(a[1..]);
    }
  }

  lemma {:induction false} StrLessTransitive(a: string, b: string, c: string)
    requires StrLess(a, b) && StrLess(b, c)
    ensures StrLess(a, c)
  {
    if a != [] && b != [] && c != [] && a[0] == b[0] == c[0] {
      StrLessTransitive(a[1..], b[1..], c[1..]);
    }
  }

  lemma {:induction false} StrLessTotal(a: string, b: string)
    ensures a == b || StrLess(a, b) || StrLess(b, a)
  {
    if a != [] && b != [] && a[0] == b[0] {
      StrLessTotal(a[1..], b[1..]);
      if a[1..] == b[1..] {
        assert a == [a[0]] + a[1..] && b == [b[0]] + b[1..];
      }
    }
  }

  lemma {:induction false} StrLessAsymmetric(a: string, b: string)
    requires StrLess(a, b)
    ensures !StrLess(b, a)
  {
    if a != [] && b != [] && a[0] == b[0] {
      StrLessAsymmetric(a[1..], b[1..]);
    }
  }

  /** A text no longer than `p` contains `p` only by being `p`. */
  lemma {:induction false} ShortNeverContains(s: string, p: string)
    requires |s| <= |p| && s != p
    ensures !Contains(s, p)
  {
    if s != [] {
      ShortNeverContains(s[1..], p);
    }
  }
}
