/** The string functions of 3PL.py that derive keys and vet file names:
    `str.upper`, `str.lower`, `str.strip`, `str.split`, `str.join`,
    the nested `sanitize_key` of `add_suite`, and `allowed_file`.
    Character classes are the ASCII ones. */
module Keys {
  import opened Tables

  predicate IsDigit(c: char) { '0' <= c <= '9' }
  predicate IsUpper(c: char) { 'A' <= c <= 'Z' }
  predicate IsLower(c: char) { 'a' <= c <= 'z' }

  /** `str.isalnum` on one ASCII character. */
  predicate IsAlnum(c: char) { IsDigit(c) || IsUpper(c) || IsLower(c) }

  /** The ASCII characters `str.strip()` removes. */
  predicate IsSpace(c: char)
  {
    c == ' ' || '\t' <= c <= '\r' || '\U{1C}' <= c <= '\U{1F}'
  }

  function UpperChar(c: char): char
  {
    if IsLower(c) then (c as int - 32) as char else c
  }

  function LowerChar(c: char): char
  {
    if IsUpper(c) then (c as int + 32) as char else c
  }

  /** `s.upper()` */
  function Upper(s: string): (r: string)
    ensures |r| == |s|
    ensures forall i :: 0 <= i < |s| ==> r[i] == UpperChar(s[i])
    decreases |s|
  {
    if s == [] then [] else [UpperChar(s[0])] + Upper(s[1..])
  }

  /** `s.lower()` */
  function Lower(s: string): (r: string)
    ensures |r| == |s|
    ensures forall i :: 0 <= i < |s| ==> r[i] == LowerChar(s[i])
    decreases |s|
  {
    if s == [] then [] else [LowerChar(s[0])] + Lower(s[1..])
  }

  /** How many white-space characters s starts with. */
  function LeadingSpaces(s: string): (n: nat)
    ensures n <= |s|
    ensures forall i :: 0 <= i < n ==> IsSpace(s[i])
    ensures n < |s| ==> !IsSpace(s[n])
    decreases |s|
  {
    if s != [] && IsSpace(s[0]) then 1 + LeadingSpaces(s[1..]) else 0
  }

  /** How many white-space characters s ends with. */
  function TrailingSpaces(s: string): (n: nat)
    ensures n <= |s|
    ensures forall i :: |s| - n <= i < |s| ==> IsSpace(s[i])
    ensures n < |s| ==> !IsSpace(s[|s| - n - 1])
    decreases |s|
  {
    if s != [] && IsSpace(s[|s| - 1]) then 1 + TrailingSpaces(s[..|s| - 1]) else 0
  }

  /** `s.strip()`: s without its leading and trailing white space. The
      result is empty or starts and ends with a character strip keeps. */
  function Strip(s: string): (r: string)
    ensures |r| <= |s|
    ensures r != [] ==> !IsSpace(r[0]) && !IsSpace(r[|r| - 1])
  {
    var a := LeadingSpaces(s);
    s[a..|s| - TrailingSpaces(s[a..])]
  }

  /** What `strip` keeps is the slice of s starting at the first
      non-space character and ending at the last one: everything cut off
      on either side is white space. */
  lemma StripSlice(s: string)
    ensures LeadingSpaces(s) + |Strip(s)| <= |s|
    ensures Strip(s) == s[LeadingSpaces(s)..LeadingSpaces(s) + |Strip(s)|]
    ensures forall j :: 0 <= j < LeadingSpaces(s) ==> IsSpace(s[j])
    ensures forall j :: LeadingSpaces(s) + |Strip(s)| <= j < |s| ==> IsSpace(s[j])
  {
    var a := LeadingSpaces(s);
    var t := s[a..];
    var b := TrailingSpaces(t);
    var r := Strip(s);
    assert r == s[a..|s| - b];
    assert a + |r| == |s| - b;
    forall j | |s| - b <= j < |s| ensures IsSpace(s[j]) {
      assert s[j] == t[j - a];
    }
  }

  /** Stripping twice strips nothing more. */
  lemma StripIdempotent(s: string)
    ensures Strip(Strip(s)) == Strip(s)
  {
    var r := Strip(s);
    if r != [] {
      assert LeadingSpaces(r) == 0;
      assert TrailingSpaces(r[0..]) == 0 by { assert r[0..] == r; }
    }
  }

  /** strip yields the empty string exactly when s is all white space. */
  lemma StripEmpty(s: string)
    ensures Strip(s) == [] <==> forall j :: 0 <= j < |s| ==> IsSpace(s[j])
  {
    StripSlice(s);
    var a := LeadingSpaces(s);
    if a < |s| {
      assert s[a..][0] == s[a];
    }
  }

  // ---------------------------------------------------------------------------
  // `str.split(sep)` and `sep.join(parts)` on one-character separators.

  /** `s.split(sep)`: the pieces between separators, empty ones included;
      an empty string splits into one empty piece. */
  function Split(s: string, sep: char): (parts: seq<string>)
    ensures |parts| >= 1
    ensures forall p :: p in parts ==> sep !in p
    ensures forall p, c :: p in parts && c in p ==> c in s
    decreases |s|
  {
    if s == [] then [[]]
    else
      var rest := Split(s[1..], sep);
      if s[0] == sep then [[]] + rest
      else [[s[0]] + rest[0]] + rest[1..]
  }

  /** `sep.join(parts)` */
  function Join(parts: seq<string>, sep: char): string
    decreases |parts|
  {
    if parts == [] then []
    else if |parts| == 1 then parts[0]
    else parts[0] + [sep] + Join(parts[1..], sep)
  }

  /** Splitting and joining on the same separator gives back the string. */
  lemma {:induction false} JoinSplit(s: string, sep: char)
    ensures Join(Split(s, sep), sep) == s
    decreases |s|
  {
    if s != [] {
      JoinSplit(s[1..], sep);
      var rest := Split(s[1..], sep);
      if s[0] == sep {
        assert ([[]] + rest)[1..] == rest;
      } else if |rest| == 1 {
        assert Split(s, sep) == [[s[0]] + rest[0]];
      } else {
        var parts := [[s[0]] + rest[0]] + rest[1..];
        assert parts[1..] == rest[1..];
        assert Join(rest, sep) == rest[0] + [sep] + Join(rest[1..], sep);
      }
    }
  }

  /** `[k.upper() for k in ks]` */
  function UpperEach(ks: seq<string>): (r: seq<string>)
    ensures |r| == |ks| && forall i :: 0 <= i < |ks| ==> r[i] == Upper(ks[i])
  {
    seq(|ks|, i requires 0 <= i < |ks| => Upper(ks[i]))
  }

  /** `filter(None, parts)`: the non-empty pieces. */
  function NonEmpty(parts: seq<string>): (r: seq<string>)
    ensures forall p :: p in r <==> p in parts && p != []
    decreases |parts|
  {
    if parts == [] then []
    else (if parts[0] != [] then [parts[0]] else []) + NonEmpty(parts[1..])
  }

  /** `filter(None, …)` works piece by piece: it keeps a piece's order and
      repeats, so filtering a concatenation filters each part in turn. */
  lemma {:induction false} NonEmptyAppend(a: seq<string>, b: seq<string>)
    ensures NonEmpty(a + b) == NonEmpty(a) + NonEmpty(b)
    decreases |a|
  {
    if a == [] {
      assert a + b == b;
    } else {
      assert (a + b)[1..] == a[1..] + b;
      NonEmptyAppend(a[1..], b);
    }
  }

  /** A single piece is kept exactly when it is not empty. */
  lemma NonEmptySingle(p: string)
    ensures NonEmpty([p]) == if p == [] then [] else [p]
  {
  }

  /** `''.join(c if c.isalnum() else '_' for c in text)` */
  function MaskNonAlnum(s: string): (r: string)
    ensures |r| == |s|
    ensures forall i :: 0 <= i < |s| ==> r[i] == if IsAlnum(s[i]) then s[i] else '_'
    decreases |s|
  {
    if s == [] then [] else [if IsAlnum(s[0]) then s[0] else '_'] + MaskNonAlnum(s[1..])
  }

  /** `sanitize_key(text)` of `add_suite`: non-alphanumerics become `_`, runs
      of `_` collapse to one, leading and trailing `_` go, and the result is
      upper-cased. */
  function SanitizeKey(text: string): string
  {
    if text == [] then []
    else Upper(Join(NonEmpty(Split(MaskNonAlnum(text), '_')), '_'))
  }

  /** The key `add_suite` derives from the stripped title and tag: the tag
      when it is not empty, the title otherwise. */
  function DeriveKey(title: string, tag: string): (key: string)
    ensures tag != [] ==> key == SanitizeKey(tag)
    ensures tag == [] ==> key == SanitizeKey(title)
    ensures WellFormedKey(key)
  {
    var source := if tag != [] then tag else title;
    SanitizeKeyShape(source);
    SanitizeKey(source)
  }

  // ---------------------------------------------------------------------------
  // The shape of a derived key.

  predicate IsKeyChar(c: char) { IsUpper(c) || IsDigit(c) || c == '_' }

  /** Upper-case letters, digits and single underscores, neither first nor last. */
  predicate WellFormedKey(k: string)
  {
    && (forall i :: 0 <= i < |k| ==> IsKeyChar(k[i]))
    && (k != [] ==> k[0] != '_' && k[|k| - 1] != '_')
    && (forall i :: 0 <= i < |k| - 1 ==> k[i] == '_' ==> k[i + 1] != '_')
  }

  /** The same shape before upper-casing: any ASCII letters. */
  predicate LooseKey(k: string)
  {
    && (forall i :: 0 <= i < |k| ==> IsAlnum(k[i]) || k[i] == '_')
    && (k != [] ==> k[0] != '_' && k[|k| - 1] != '_')
    && (forall i :: 0 <= i < |k| - 1 ==> k[i] == '_' ==> k[i + 1] != '_')
  }

  predicate AlnumWord(p: string)
  {
    p != [] && forall i :: 0 <= i < |p| ==> IsAlnum(p[i])
  }

  lemma {:induction false} JoinWords(parts: seq<string>)
    requires forall p :: p in parts ==> AlnumWord(p)
    ensures LooseKey(Join(parts, '_'))
    ensures parts != [] ==> Join(parts, '_') != [] && Join(parts, '_')[0] == parts[0][0]
    decreases |parts|
  {
    if |parts| > 1 {
      JoinWords(parts[1..]);
      var p := parts[0];
      var rest := Join(parts[1..], '_');
      var j := p + ['_'] + rest;
      assert parts[1] in parts;
      assert Join(parts, '_') == j;
      assert parts[0] in parts && j[0] == p[0] && IsAlnum(p[0]);
      assert rest != [] && j[|j| - 1] == rest[|rest| - 1];
      forall i | 0 <= i < |j| - 1 ensures j[i] == '_' ==> j[i + 1] != '_' {
        if i < |p| {
          assert parts[0] in parts;
          assert j[i] == p[i];
        } else if i > |p| {
          assert j[i] == rest[i - |p| - 1] && j[i + 1] == rest[i - |p|];
        }
      }
      forall i | 0 <= i < |j| ensures IsAlnum(j[i]) || j[i] == '_' {
        if i < |p| {
          assert parts[0] in parts;
          assert j[i] == p[i];
        } else if i > |p| {
          assert j[i] == rest[i - |p| - 1];
        }
      }
    } else if |parts| == 1 {
      assert parts[0] in parts;
    }
  }

  /** A word of upper-case letters is a well-formed key. */
  lemma LettersKey(k: string)
    requires forall i :: 0 <= i < |k| ==> IsUpper(k[i])
    ensures WellFormedKey(k)
  {
  }

  lemma UpperKey(k: string)
    requires LooseKey(k)
    ensures WellFormedKey(Upper(k))
  {
    var u := Upper(k);
    forall i | 0 <= i < |u| ensures IsKeyChar(u[i]) && (u[i] == '_' <==> k[i] == '_') {
      assert u[i] == UpperChar(k[i]);
    }
  }

  /** A derived key is empty or well formed. */
  lemma SanitizeKeyShape(text: string)
    ensures WellFormedKey(SanitizeKey(text))
  {
    if text != [] {
      var masked := MaskNonAlnum(text);
      var words := NonEmpty(Split(masked, '_'));
      forall p | p in words ensures AlnumWord(p) {
        forall i | 0 <= i < |p| ensures IsAlnum(p[i]) {
          assert p[i] in p;
          var m :| 0 <= m < |masked| && masked[m] == p[i];
        }
      }
      JoinWords(words);
      UpperKey(Join(words, '_'));
    }
  }

  // ---------------------------------------------------------------------------
  // What a derived key keeps of its text.

  /** s without its underscores. */
  function Squeeze(s: string): (r: string)
    decreases |s|
  {
    if s == [] then [] else (if s[0] == '_' then [] else [s[0]]) + Squeeze(s[1..])
  }

  /** The alphanumeric characters of s, in order. */
  function AlnumOnly(s: string): string
    decreases |s|
  {
    if s == [] then [] else (if IsAlnum(s[0]) then [s[0]] else []) + AlnumOnly(s[1..])
  }

  function Concat(parts: seq<string>): string
    decreases |parts|
  {
    if parts == [] then [] else parts[0] + Concat(parts[1..])
  }

  lemma {:induction false} SqueezeAppend(a: string, b: string)
    ensures Squeeze(a + b) == Squeeze(a) + Squeeze(b)
    decreases |a|
  {
    if a == [] {
      assert a + b == b;
    } else {
      assert (a + b)[1..] == a[1..] + b;
      SqueezeAppend(a[1..], b);
    }
  }

  lemma {:induction false} SqueezeNoUnderscore(s: string)
    requires '_' !in s
    ensures Squeeze(s) == s
    decreases |s|
  {
    if s != [] {
      SqueezeNoUnderscore(s[1..]);
      assert s == [s[0]] + s[1..];
    }
  }

  lemma {:induction false} SqueezeUpper(s: string)
    ensures Squeeze(Upper(s)) == Upper(Squeeze(s))
    decreases |s|
  {
    if s != [] {
      SqueezeUpper(s[1..]);
      assert Upper(s)[1..] == Upper(s[1..]);
      assert Upper(Squeeze(s)) == Upper(if s[0] == '_' then [] else [s[0]]) + Upper(Squeeze(s[1..])) by {
        UpperAppend(if s[0] == '_' then [] else [s[0]], Squeeze(s[1..]));
      }
    }
  }

  lemma {:induction false} UpperAppend(a: string, b: string)
    ensures Upper(a + b) == Upper(a) + Upper(b)
  {
  }

  lemma {:induction false} SqueezeJoin(parts: seq<string>)
    requires forall p :: p in parts ==> '_' !in p
    ensures Squeeze(Join(parts, '_')) == Concat(parts)
    decreases |parts|
  {
    if parts == [] {
    } else if |parts| == 1 {
      assert parts[0] in parts;
      SqueezeNoUnderscore(parts[0]);
      assert Concat(parts) == parts[0] + Concat([]);
    } else {
      assert parts[0] in parts;
      SqueezeJoin(parts[1..]);
      SqueezeAppend(parts[0] + ['_'], Join(parts[1..], '_'));
      SqueezeAppend(parts[0], ['_']);
      SqueezeNoUnderscore(parts[0]);
    }
  }

  lemma {:induction false} ConcatNonEmpty(parts: seq<string>)
    ensures Concat(NonEmpty(parts)) == Concat(parts)
    decreases |parts|
  {
    if parts != [] {
      ConcatNonEmpty(parts[1..]);
      if parts[0] != [] {
        assert NonEmpty(parts) == [parts[0]] + NonEmpty(parts[1..]);
        assert ([parts[0]] + NonEmpty(parts[1..]))[1..] == NonEmpty(parts[1..]);
      } else {
        assert NonEmpty(parts) == [] + NonEmpty(parts[1..]);
        assert [] + NonEmpty(parts[1..]) == NonEmpty(parts[1..]);
      }
    }
  }

  lemma {:induction false} ConcatSplit(s: string)
    ensures Concat(Split(s, '_')) == Squeeze(s)
    decreases |s|
  {
    if s != [] {
      ConcatSplit(s[1..]);
      var rest := Split(s[1..], '_');
      if s[0] == '_' {
        assert ([[]] + rest)[1..] == rest;
        assert Concat([[]] + rest) == [] + Concat(rest);
      } else {
        var parts := [[s[0]] + rest[0]] + rest[1..];
        assert parts[1..] == rest[1..];
        assert Concat(rest) == rest[0] + Concat(rest[1..]);
        assert Concat(parts) == [s[0]] + rest[0] + Concat(rest[1..]);
      }
    }
  }

  lemma {:induction false} SqueezeMask(s: string)
    ensures Squeeze(MaskNonAlnum(s)) == AlnumOnly(s)
    decreases |s|
  {
    if s != [] {
      SqueezeMask(s[1..]);
      assert MaskNonAlnum(s)[1..] == MaskNonAlnum(s[1..]);
    }
  }

  /** Dropping the underscores of a derived key leaves exactly the
      alphanumeric characters of its text, upper-cased, in order. */
  lemma SanitizeKeyLetters(text: string)
    ensures Squeeze(SanitizeKey(text)) == Upper(AlnumOnly(text))
  {
    if text != [] {
      var masked := MaskNonAlnum(text);
      var parts := Split(masked, '_');
      var words := NonEmpty(parts);
      var joined := Join(words, '_');
      SqueezeUpper(joined);
      SqueezeJoin(words);
      ConcatNonEmpty(parts);
      ConcatSplit(masked);
      SqueezeMask(text);
    }
  }

  lemma {:induction false} SqueezeEmpty(k: string)
    requires WellFormedKey(k) && k != []
    ensures Squeeze(k) != []
  {
    assert Squeeze(k) == [k[0]] + Squeeze(k[1..]);
  }

  /** `add_suite` can derive no key exactly when its text holds no
      alphanumeric character. */
  lemma SanitizeKeyEmpty(text: string)
    ensures SanitizeKey(text) == [] <==> AlnumOnly(text) == []
  {
    SanitizeKeyShape(text);
    SanitizeKeyLetters(text);
    if SanitizeKey(text) != [] {
      SqueezeEmpty(SanitizeKey(text));
    }
  }

  // ---------------------------------------------------------------------------
  // `allowed_file`

  const AllowedExtensions: set<string> := {"png", "jpg", "jpeg", "gif", "pdf", "zip", "docx", "xlsx"}

  /** `'.' in filename and filename.rsplit('.', 1)[1].lower() in ALLOWED_EXTENSIONS` */
  function AllowedFile(filename: string): bool
  {
    match LastPosition(filename, '.')
    case None => false
    case Some(i) => Lower(filename[i + 1..]) in AllowedExtensions
  }

  /** i is the position of the last dot in filename. */
  predicate LastDot(filename: string, i: int)
  {
    0 <= i < |filename| && filename[i] == '.' && forall j :: i < j < |filename| ==> filename[j] != '.'
  }

  /** A name has at most one last dot. */
  lemma LastDotUnique(filename: string, i: int, j: int)
    requires LastDot(filename, i) && LastDot(filename, j)
    ensures i == j
  {
  }

  /** Where `rsplit('.', 1)` cuts: the last dot, when there is one. */
  lemma LastDotFound(filename: string)
    ensures LastPosition(filename, '.').Some? ==> LastDot(filename, LastPosition(filename, '.').value)
    ensures LastPosition(filename, '.').None? ==> forall j :: !LastDot(filename, j)
  {
    if LastPosition(filename, '.').None? {
      forall j | 0 <= j < |filename| ensures !LastDot(filename, j) {
        assert filename[j] in filename;
      }
    }
  }

  /** A name is allowed exactly when it has a dot and the text after its
      last dot, lower-cased, is one of the allowed extensions. */
  lemma AllowedFileIff(filename: string)
    ensures AllowedFile(filename) <==>
      exists i :: LastDot(filename, i) && Lower(filename[i + 1..]) in AllowedExtensions
  {
    LastDotFound(filename);
    forall i | LastDot(filename, i) && Lower(filename[i + 1..]) in AllowedExtensions
      ensures AllowedFile(filename)
    {
      LastDotUnique(filename, i, LastPosition(filename, '.').value);
    }
  }

}
