/**
 * The user-creation helpers of the client: Cyrillic-to-Latin
 * transliteration, the generated login, the generated temporary password
 * and the role a new user gets when none is chosen. The random numbers
 * the client draws (`Math.random`) are parameters here.
 */
module Users {
  import opened Common
  import opened Text

  /** The transliteration table; the hard and soft signs map to the empty string. */
  const CyrillicToLatin: map<char, string> := map[
    'А' := "A", 'а' := "a", 'Б' := "B", 'б' := "b", 'В' := "V", 'в' := "v",
    'Г' := "G", 'г' := "g", 'Д' := "D", 'д' := "d", 'Е' := "E", 'е' := "e",
    'Ё' := "E", 'ё' := "e", 'Ж' := "Zh", 'ж' := "zh", 'З' := "Z", 'з' := "z",
    'И' := "I", 'и' := "i", 'Й' := "Y", 'й' := "y", 'К' := "K", 'к' := "k",
    'Л' := "L", 'л' := "l", 'М' := "M", 'м' := "m", 'Н' := "N", 'н' := "n",
    'О' := "O", 'о' := "o", 'П' := "P", 'п' := "p", 'Р' := "R", 'р' := "r",
    'С' := "S", 'с' := "s", 'Т' := "T", 'т' := "t", 'У' := "U", 'у' := "u",
    'Ф' := "F", 'ф' := "f", 'Х' := "Kh", 'х' := "kh", 'Ц' := "Ts", 'ц' := "ts",
    'Ч' := "Ch", 'ч' := "ch", 'Ш' := "Sh", 'ш' := "sh", 'Щ' := "Shch", 'щ' := "shch",
    'Ы' := "Y", 'ы' := "y", 'Э' := "E", 'э' := "e", 'Ю' := "Yu", 'ю' := "yu",
    'Я' := "Ya", 'я' := "ya", 'Ь' := "", 'ь' := "", 'Ъ' := "", 'ъ' := ""]

  /** `map[char] || char`: the table's entry when it is non-empty, otherwise the character itself. */
  function TranslitChar(c: char): (r: string)
    ensures |r| >= 1
    ensures c !in CyrillicToLatin || CyrillicToLatin[c] == "" ==> r == [c]
  {
    if c in CyrillicToLatin && CyrillicToLatin[c] != "" then CyrillicToLatin[c] else [c]
  }

  /** `transliterate`: every character replaced, the pieces joined in order. */
  function Transliterate(s: string): (r: string)
    ensures |r| >= |s|
  {
    if |s| == 0 then "" else TranslitChar(s[0]) + Transliterate(s[1..])
  }

  /** Transliteration works character by character, so it distributes over concatenation. */
  lemma {:induction false} TransliterateAppend(a: string, b: string)
    ensures Transliterate(a + b) == Transliterate(a) + Transliterate(b)
  {
    if |a| > 0 {
      assert (a + b)[1..] == a[1..] + b;
      TransliterateAppend(a[1..], b);
    } else {
      assert a + b == b;
    }
  }

  /** A string with no letter the table turns into something non-empty is left as it is. */
  lemma {:induction false} TransliterateUnmapped(s: string)
    requires forall k :: 0 <= k < |s| ==> TranslitChar(s[k]) == [s[k]]
    ensures Transliterate(s) == s
  {
    if |s| > 0 {
      var rest := s[1..];
      TransliterateUnmapped(rest);
      PrependChar(s, Transliterate(s), TranslitChar(s[0]), Transliterate(rest));
    }
  }

  /** The step of `TransliterateUnmapped` on the pieces alone. */
  lemma PrependChar(s: string, all: string, head: string, tail: string)
    requires |s| > 0 && head == [s[0]] && tail == s[1..] && all == head + tail
    ensures all == s
  {
    assert s == [s[0]] + s[1..];
  }

  /** The hard and soft signs are kept, not dropped, because their table entry is empty. */
  lemma SignsKept()
    ensures Transliterate("ь") == "ь" && Transliterate("Ъ") == "Ъ"
  {
    assert CyrillicToLatin['ь'] == "" && CyrillicToLatin['Ъ'] == "";
    assert "ь"[1..] == [] && "Ъ"[1..] == [];
  }

  /** The hard and soft signs, which the table maps to nothing. */
  predicate IsSign(c: char)
  {
    c == 'ь' || c == 'Ь' || c == 'ъ' || c == 'Ъ'
  }

  /** The table read as meant: a character in the table becomes its entry, even an empty one. */
  function TranslitCharIntended(c: char): (r: string)
    ensures IsSign(c) ==> r == ""
    ensures c !in CyrillicToLatin || CyrillicToLatin[c] != "" ==> r == TranslitChar(c)
  {
    if c in CyrillicToLatin then CyrillicToLatin[c] else [c]
  }

  /** Transliteration with the signs dropped. */
  function TransliterateIntended(s: string): string
  {
    if |s| == 0 then "" else TranslitCharIntended(s[0]) + TransliterateIntended(s[1..])
  }

  lemma {:induction false} TransliterateIntendedAppend(a: string, b: string)
    ensures TransliterateIntended(a + b) == TransliterateIntended(a) + TransliterateIntended(b)
  {
    if |a| > 0 {
      assert (a + b)[1..] == a[1..] + b;
      TransliterateIntendedAppend(a[1..], b);
    } else {
      assert a + b == b;
    }
  }

  /** A hard or soft sign anywhere in the text leaves no trace in the intended transliteration. */
  lemma {:induction false} SignDropped(before: string, c: char, after: string)
    requires IsSign(c)
    ensures TransliterateIntended(before + [c] + after) == TransliterateIntended(before) + TransliterateIntended(after)
  {
    var tb := TransliterateIntended(before);
    TransliterateIntendedAppend(before + [c], after);
    TransliterateIntendedAppend(before, [c]);
    TransliterateIntendedSign(c);
    assert tb + "" == tb;
  }

  /** A sign alone transliterates, as intended, to nothing. */
  lemma TransliterateIntendedSign(c: char)
    requires IsSign(c)
    ensures TransliterateIntended([c]) == ""
  {
    assert [c][1..] == [];
  }

  /** On text whose every letter has a non-empty entry or none, the intended and the written transliteration agree. */
  lemma {:induction false} TransliterateIntendedAgrees(s: string)
    requires forall k :: 0 <= k < |s| ==> s[k] !in CyrillicToLatin || CyrillicToLatin[s[k]] != ""
    ensures TransliterateIntended(s) == Transliterate(s)
  {
    if |s| > 0 {
      TransliterateIntendedAgrees(s[1..]);
    }
  }

  // ---------------------------------------------------------------- letter case

  /** The letters whose case the model knows: Latin and the basic Cyrillic alphabet with Ё. */
  predicate IsUpper(c: char)
  {
    'A' <= c <= 'Z' || 'А' <= c <= 'Я' || c == 'Ё'
  }

  predicate IsLower(c: char)
  {
    'a' <= c <= 'z' || 'а' <= c <= 'я' || c == 'ё'
  }

  /** `toUpperCase` on one character. */
  function Upper(c: char): (u: char)
    ensures !IsLower(u)
    ensures IsUpper(c) || !IsLower(c) ==> u == c
  {
    if 'a' <= c <= 'z' || 'а' <= c <= 'я' then (c as int - 32) as char
    else if c == 'ё' then 'Ё'
    else c
  }

  /** `toLowerCase` on one character. */
  function Lower(c: char): (l: char)
    ensures !IsUpper(l)
    ensures IsLower(c) || !IsUpper(c) ==> l == c
  {
    if 'A' <= c <= 'Z' || 'А' <= c <= 'Я' then (c as int + 32) as char
    else if c == 'Ё' then 'ё'
    else c
  }

  function LowerAll(s: string): (r: string)
    ensures |r| == |s| && forall k :: 0 <= k < |s| ==> r[k] == Lower(s[k])
  {
    seq(|s|, k requires 0 <= k < |s| => Lower(s[k]))
  }

  // ---------------------------------------------------------------- login and password

  /** `generateLogin`: the transliterated last name, first letter upper-cased and the rest lower-cased, then the random suffix. */
  function GenerateLogin(lastName: string, suffix: nat): (login: string)
    requires suffix < 1000
    ensures var t := Transliterate(lastName);
      var digits := NatToString(suffix);
      |login| == |t| + |digits| && login[|t|..] == digits
      && LowerAll(login[..|t|]) == LowerAll(t)
      && (|t| > 0 ==> !IsLower(login[0]))
      && forall k :: 1 <= k < |t| ==> !IsUpper(login[k])
  {
    var t := Transliterate(lastName);
    var head := if |t| == 0 then "" else [Upper(t[0])];
    var tail := if |t| == 0 then "" else LowerAll(t[1..]);
    var login := head + tail + NatToString(suffix);
    assert login[..|t|] == head + tail;
    assert |t| > 0 ==> LowerAll(head + tail) == LowerAll(t) by {
      if |t| > 0 { CapitalizedLower(t); }
    }
    login
  }

  /** Upper-casing the first letter and lower-casing the rest leaves the lower-cased text as it was. */
  lemma CapitalizedLower(t: string)
    requires |t| > 0
    ensures LowerAll([Upper(t[0])] + LowerAll(t[1..])) == LowerAll(t)
  {
    var c := [Upper(t[0])] + LowerAll(t[1..]);
    forall k | 0 <= k < |t| ensures LowerAll(c)[k] == LowerAll(t)[k] {
      if k == 0 {
        assert Lower(Upper(t[0])) == Lower(t[0]);
      } else {
        assert c[k] == Lower(t[k]);
      }
    }
  }

  /** The 74 characters a temporary password is drawn from. */
  const PasswordChars := "ABCDEFGHIJKLMNOPQRSTUVWXYZabcdefghijklmnopqrstuvwxyz0123456789!@#$%^&*()_+"

  /**
   * `generateTempPassword`: twelve draws, each `Math.floor(Math.random() * 74)`,
   * appended in turn. `draws` are those twelve numbers; a number drawn from
   * `[0, 1)` scaled by 74 and floored is always below 74.
   */
  method GenerateTempPassword(draws: seq<nat>) returns (password: string)
    requires |draws| == 12 && forall k :: 0 <= k < 12 ==> draws[k] < |PasswordChars|
    ensures |password| == 12
    ensures forall k :: 0 <= k < 12 ==> password[k] == PasswordChars[draws[k]] && password[k] in PasswordChars
  {
    password := "";
    var i := 0;
    while i < 12
      invariant 0 <= i <= 12 && |password| == i
      invariant forall k :: 0 <= k < i ==> password[k] == PasswordChars[draws[k]]
    {
      password := password + [PasswordChars[draws[i]]];
      i := i + 1;
    }
  }

  // ---------------------------------------------------------------- create

  /** The fields `create` receives from the form. */
  datatype NewUser = NewUser(firstName: string, lastName: string, middleName: string,
                             role: Option<string>, positionId: Option<string>, departmentId: Option<string>)

  /** The body `create` posts. */
  datatype CreateRequest = CreateRequest(login: string, tempPassword: string, password: string,
                                         firstName: string, middleName: string, lastName: string,
                                         role: string, positionId: Option<string>, departmentId: Option<string>)

  /** `data.role || 'TEACHER'`. */
  function DefaultRole(role: Option<string>): (r: string)
    ensures !Truthy(role) ==> r == "TEACHER"
    ensures Truthy(role) ==> r == role.value
  {
    if Truthy(role) then role.value else "TEACHER"
  }

  /**
   * The request `create` builds before posting it: a generated login and
   * temporary password, the fixed password "123456", the form's names and
   * ids, and role TEACHER when none was chosen.
   */
  method BuildCreateRequest(data: NewUser, suffix: nat, draws: seq<nat>) returns (req: CreateRequest)
    requires suffix < 1000
    requires |draws| == 12 && forall k :: 0 <= k < 12 ==> draws[k] < |PasswordChars|
    ensures req.login == GenerateLogin(data.lastName, suffix)
    ensures |req.tempPassword| == 12 && forall k :: 0 <= k < 12 ==> req.tempPassword[k] in PasswordChars
    ensures req.password == "123456"
    ensures req.firstName == data.firstName && req.middleName == data.middleName && req.lastName == data.lastName
    ensures !Truthy(data.role) ==> req.role == "TEACHER"
    ensures Truthy(data.role) ==> req.role == data.role.value
    ensures req.positionId == data.positionId && req.departmentId == data.departmentId
  {
    var login := GenerateLogin(data.lastName, suffix);
    var temp := GenerateTempPassword(draws);
    req := CreateRequest(login, temp, "123456", data.firstName, data.middleName, data.lastName,
      DefaultRole(data.role), data.positionId, data.departmentId);
  }
}
