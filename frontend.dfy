/**
 * The pure logic of the page script: the password-strength meter, the
 * file-type check of the two upload inputs and the notification tables.
 */
module FrontEnd {

  // ---------------------------------------------------------------------
  // Password strength
  // ---------------------------------------------------------------------

  datatype Strength = Weak | Medium | Strong

  /** UTF-16 code units of one character: two for a character beyond U+FFFF. */
  function CodeUnits(c: char): nat {
    if c as int >= 0x1_0000 then 2 else 1
  }

  /** JavaScript's `length` of a string, counted in UTF-16 code units. */
  function JsLength(s: string): (n: nat)
    ensures |s| <= n <= 2 * |s|
  {
    if s == [] then 0 else JsLength(s[..|s| - 1]) + CodeUnits(s[|s| - 1])
  }

  predicate IsLower(c: char) { 'a' <= c <= 'z' }
  predicate IsUpper(c: char) { 'A' <= c <= 'Z' }
  predicate IsDigit(c: char) { '0' <= c <= '9' }

  /** `/[a-z]/.test(s)` */
  predicate HasLower(s: string) { exists c :: c in s && IsLower(c) }
  /** `/[A-Z]/.test(s)` */
  predicate HasUpper(s: string) { exists c :: c in s && IsUpper(c) }
  /** `/[0-9]/.test(s)` */
  predicate HasDigit(s: string) { exists c :: c in s && IsDigit(c) }
  /** `/[^A-Za-z0-9]/.test(s)` */
  predicate HasSymbol(s: string) { exists c :: c in s && !IsLower(c) && !IsUpper(c) && !IsDigit(c) }

  /** One point for a test that passes. */
  function Point(test: bool): nat {
    if test then 1 else 0
  }

  /** The points for length: one at 8 code units, another at 12. */
  function LengthPoints(password: string): nat {
    Point(JsLength(password) >= 8) + Point(JsLength(password) >= 12)
  }

  /** The points for character classes: one per class present. */
  function ClassPoints(password: string): nat {
    Point(HasLower(password)) + Point(HasUpper(password)) + Point(HasDigit(password)) + Point(HasSymbol(password))
  }

  /** The `score` of `calculatePasswordStrength`: six tests, one point each. */
  function Score(password: string): nat {
    LengthPoints(password) + ClassPoints(password)
  }

  function PasswordStrength(password: string): Strength {
    var score := Score(password);
    if score <= 2 then Weak else if score <= 4 then Medium else Strong
  }

  /** The score lies in 0..6 and the three bands split it at 2 and 4. */
  lemma StrengthBands(password: string)
    ensures 0 <= Score(password) <= 6
    ensures PasswordStrength(password) == Weak <==> Score(password) <= 2
    ensures PasswordStrength(password) == Medium <==> 3 <= Score(password) <= 4
    ensures PasswordStrength(password) == Strong <==> 5 <= Score(password)
  {
  }

  /** Below 8 code units there are no length points, so the score is at most 4 and never strong. */
  lemma ShortPasswordNeverStrong(password: string)
    requires JsLength(password) < 8
    ensures Score(password) <= 4
    ensures PasswordStrength(password) != Strong
  {
  }

  lemma EmptyPasswordIsWeak()
    ensures Score("") == 0 && PasswordStrength("") == Weak
  {
    assert !HasLower("") && !HasUpper("") && !HasDigit("") && !HasSymbol("");
  }

  /** 12 code units or more with all four character classes is strong. */
  lemma LongVariedPasswordIsStrong(password: string)
    requires JsLength(password) >= 12
    requires HasLower(password) && HasUpper(password) && HasDigit(password) && HasSymbol(password)
    ensures Score(password) == 6 && PasswordStrength(password) == Strong
  {
  }

  lemma {:induction false} JsLengthAppend(s: string, c: char)
    ensures JsLength(s + [c]) == JsLength(s) + CodeUnits(c)
  {
    assert (s + [c])[..|s|] == s;
  }

  /** Each class counts once: another character of a class already present adds nothing. */
  lemma RepeatedClassAddsNothing(password: string, c: char)
    requires (IsLower(c) && HasLower(password)) || (IsUpper(c) && HasUpper(password))
          || (IsDigit(c) && HasDigit(password))
          || (!IsLower(c) && !IsUpper(c) && !IsDigit(c) && HasSymbol(password))
    ensures ClassPoints(password + [c]) == ClassPoints(password)
    ensures Score(password + [c]) - Score(password) <= 1
  {
    ClassesOfAppend(password, c);
    JsLengthAppend(password, c);
  }

  /** Typing one more character never lowers the score. */
  lemma ScoreMonotone(password: string, c: char)
    ensures Score(password) <= Score(password + [c])
  {
    ClassesOfAppend(password, c);
    JsLengthAppend(password, c);
  }

  lemma ClassesOfAppend(s: string, c: char)
    ensures HasLower(s + [c]) <==> HasLower(s) || IsLower(c)
    ensures HasUpper(s + [c]) <==> HasUpper(s) || IsUpper(c)
    ensures HasDigit(s + [c]) <==> HasDigit(s) || IsDigit(c)
    ensures HasSymbol(s + [c]) <==> HasSymbol(s) || (!IsLower(c) && !IsUpper(c) && !IsDigit(c))
  {
    assert c in s + [c];
    assert forall x :: x in s + [c] <==> x in s || x == c;
  }

  // ---------------------------------------------------------------------
  // Upload file-type check
  // ---------------------------------------------------------------------

  /** The types the image input passes to `handleFileSelection`. */
  const ImageTypes: seq<string> := ["image/jpeg", "image/png", "image/gif", "image/bmp"]

  /** The types the package input passes to `handleFileSelection`. */
  const PackageTypes: seq<string> := [".huffimg"]

  /** `toLowerCase` on one character, for the ASCII letters. */
  function LowerChar(c: char): char {
    if IsUpper(c) then (c as int + 32) as char else c
  }

  /**
   * `toLowerCase`: every character of the result is outside `A`..`Z`; an
   * upper-case letter moves to its lower-case partner, 32 code points up,
   * and every other character is kept.
   */
  function ToLowerCase(s: string): (lower: string)
    ensures |lower| == |s|
    ensures forall i :: 0 <= i < |s| ==> !IsUpper(lower[i])
    ensures forall i :: 0 <= i < |s| && !IsUpper(s[i]) ==> lower[i] == s[i]
    ensures forall i :: 0 <= i < |s| && IsUpper(s[i]) ==> lower[i] as int == s[i] as int + 32
  {
    seq(|s|, i requires 0 <= i < |s| => LowerChar(s[i]))
  }

  /** Lower-casing an already lower-cased string changes nothing. */
  lemma LowerCaseIdempotent(s: string)
    ensures ToLowerCase(ToLowerCase(s)) == ToLowerCase(s)
  {
    var once := ToLowerCase(s);
    var twice := ToLowerCase(once);
    forall i | 0 <= i < |s| ensures twice[i] == once[i] {
      assert !IsUpper(once[i]);
    }
  }

  predicate StartsWith(s: string, prefix: string) {
    |prefix| <= |s| && s[..|prefix|] == prefix
  }

  predicate EndsWith(s: string, suffix: string) {
    |suffix| <= |s| && s[|s| - |suffix|..] == suffix
  }

  /**
   * The callback of `allowedTypes.some(...)`: a type starting with `.` is a
   * file-name extension matched against the lower-cased name; any other
   * type is a MIME type matched exactly.
   */
  predicate Accepts(allowed: string, name: string, mime: string) {
    if StartsWith(allowed, ".") then EndsWith(ToLowerCase(name), allowed) else mime == allowed
  }

  /** `isValid`: some allowed type accepts the file. */
  function IsValidFile(allowedTypes: seq<string>, name: string, mime: string): (valid: bool)
    ensures valid <==> exists i :: 0 <= i < |allowedTypes| && Accepts(allowedTypes[i], name, mime)
  {
    if allowedTypes == [] then false
    else Accepts(allowedTypes[0], name, mime) || IsValidFile(allowedTypes[1..], name, mime)
  }

  /** The image input accepts a file by its MIME type alone, whatever its name. */
  lemma ImageInputChecksMime(name: string, mime: string)
    ensures IsValidFile(ImageTypes, name, mime) <==> mime in ImageTypes
  {
    forall i | 0 <= i < |ImageTypes| ensures Accepts(ImageTypes[i], name, mime) <==> mime == ImageTypes[i] {
      assert ImageTypes[i][0] == 'i';
    }
    if mime in ImageTypes {
      var i :| 0 <= i < |ImageTypes| && ImageTypes[i] == mime;
      assert Accepts(ImageTypes[i], name, mime);
    }
  }

  /** The package input accepts a file by its lower-cased name alone, whatever its MIME type. */
  lemma PackageInputChecksExtension(name: string, mime: string)
    ensures IsValidFile(PackageTypes, name, mime) <==> EndsWith(ToLowerCase(name), ".huffimg")
  {
    assert StartsWith(PackageTypes[0], ".");
  }

  /** An upper-case package name is accepted. */
  lemma UpperCasePackageNameAccepted(mime: string)
    ensures IsValidFile(PackageTypes, "X.HUFFIMG", mime)
  {
    var lower := ToLowerCase("X.HUFFIMG");
    assert lower == "x.huffimg";
    PackageInputChecksExtension("X.HUFFIMG", mime);
  }

  /** An extension type is blind to the case of the name and to the MIME type. */
  lemma ExtensionIgnoresCaseAndMime(allowed: string, name1: string, name2: string, mime1: string, mime2: string)
    requires StartsWith(allowed, ".")
    requires ToLowerCase(name1) == ToLowerCase(name2)
    ensures Accepts(allowed, name1, mime1) == Accepts(allowed, name2, mime2)
  {
  }

  /** An extension type holding an upper-case letter accepts no file, since the name is lower-cased first. */
  lemma UpperCaseExtensionMatchesNothing(allowed: string, name: string, mime: string, k: nat)
    requires StartsWith(allowed, ".") && k < |allowed| && IsUpper(allowed[k])
    ensures !Accepts(allowed, name, mime)
  {
    var lower := ToLowerCase(name);
    if |allowed| <= |lower| {
      var j := |lower| - |allowed| + k;
      assert !IsUpper(LowerChar(name[j]));
      assert lower[|lower| - |allowed|..][k] != allowed[k];
    }
  }

  // ---------------------------------------------------------------------
  // Notifications
  // ---------------------------------------------------------------------

  const Icons: map<string, string> := map[
    "success" := "fa-check-circle",
    "error" := "fa-exclamation-circle",
    "warning" := "fa-exclamation-triangle",
    "info" := "fa-info-circle"]

  const Colors: map<string, string> := map[
    "success" := "#10b981",
    "error" := "#ef4444",
    "warning" := "#f59e0b",
    "info" := "#3b82f6"]

  /** `table[kind] || table.info`: the entry of `kind` unless it is missing or empty, else the `info` entry. */
  function EntryOrInfo(table: map<string, string>, kind: string): string
    requires "info" in table
  {
    if kind in table && table[kind] != "" then table[kind] else table["info"]
  }

  function NotificationIcon(kind: string): (icon: string)
    ensures icon in Icons.Values
    ensures kind in Icons ==> icon == Icons[kind]
    ensures kind !in Icons ==> icon == Icons["info"]
  {
    EntryOrInfo(Icons, kind)
  }

  function NotificationColor(kind: string): (color: string)
    ensures color in Colors.Values
    ensures kind in Colors ==> color == Colors[kind]
    ensures kind !in Colors ==> color == Colors["info"]
  {
    EntryOrInfo(Colors, kind)
  }

  /** Icon and color fall back to `info` together, for exactly the unknown types and `info` itself. */
  lemma FallbackTogether(kind: string)
    ensures NotificationIcon(kind) == "fa-info-circle" <==> kind !in Icons || kind == "info"
    ensures NotificationColor(kind) == "#3b82f6" <==> kind !in Colors || kind == "info"
    ensures Icons.Keys == Colors.Keys
  {
  }
}
