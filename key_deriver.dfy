/**
 * Storage-key derivation: a URL is sanitised so that only ASCII letters and
 * digits survive, everything else becoming `_`, and the result is wrapped as
 * `tracker/<sanitised>.json`.
 *
 * The source replaces with the regular expression `/[^a-z0-9]/gi`, which
 * (without the `u` flag) works on UTF-16 code units: a character outside the
 * Basic Multilingual Plane is two code units and becomes two underscores.
 */
module KeyDeriver {
  import opened JsValues

  const KeyPrefix: string := "tracker/"
  const KeySuffix: string := ".json"

  /** The characters the regular expression keeps (case-insensitive `[a-z0-9]`;
      JavaScript's non-Unicode case folding never maps a non-ASCII character
      into ASCII, so no other character matches). */
  predicate IsAsciiAlnum(c: char)
  {
    'a' <= c <= 'z' || 'A' <= c <= 'Z' || '0' <= c <= '9'
  }

  /** What the regular expression leaves of one UTF-16 code unit. */
  function SanitizeUnit(u: nat): char
  {
    if u < 0x80 && IsAsciiAlnum(u as char) then u as char else '_'
  }

  function Underscores(n: nat): (r: string)
    ensures |r| == n && forall i :: 0 <= i < n ==> r[i] == '_'
  {
    if n == 0 then [] else ['_'] + Underscores(n - 1)
  }

  /** Only letters, digits and `_` are left. */
  predicate IsSanitized(s: string)
  {
    forall i :: 0 <= i < |s| ==> s[i] == '_' || IsAsciiAlnum(s[i])
  }

  /** `String(url).replace(/[^a-z0-9]/gi, "_")`: one character per UTF-16 code
      unit of the URL, holding only letters, digits and `_`. */
  function Sanitize(url: string): (r: string)
    ensures |r| == |CodeUnits(url)|
    ensures IsSanitized(r)
  {
    if url == [] then []
    else
      var head := if IsAsciiAlnum(url[0]) then [url[0]] else Underscores(|Utf16Units(url[0])|);
      var tail := Sanitize(url[1..]);
      assert forall i :: 0 <= i < |head| ==> head[i] == '_' || IsAsciiAlnum(head[i]);
      assert forall i :: |head| <= i < |head + tail| ==> (head + tail)[i] == tail[i - |head|];
      head + tail
  }

  /** `storageKey`: `tracker/<sanitised URL>.json`. */
  function StorageKey(url: string): (key: string)
    ensures |key| == |KeyPrefix| + |CodeUnits(url)| + |KeySuffix|
    ensures key[..|KeyPrefix|] == KeyPrefix && key[|key| - |KeySuffix|..] == KeySuffix
    ensures IsSanitized(key[|KeyPrefix|..|key| - |KeySuffix|])
  {
    var key := KeyPrefix + Sanitize(url) + KeySuffix;
    assert key[|KeyPrefix|..|key| - |KeySuffix|] == Sanitize(url);
    key
  }

  // ---------------------------------------------------------------------------
  // Lemmas

  /** Position by position over the URL's UTF-16 code units: an ASCII letter
      or digit is kept, any other unit (surrogate halves included) becomes
      `_`. */
  lemma {:induction false} SanitizeAt(url: string, i: nat)
    requires i < |CodeUnits(url)|
    ensures Sanitize(url)[i] == SanitizeUnit(CodeUnits(url)[i])
  {
    var us := Utf16Units(url[0]);
    var head := if IsAsciiAlnum(url[0]) then [url[0]] else Underscores(|us|);
    assert Sanitize(url) == head + Sanitize(url[1..]);
    assert CodeUnits(url) == us + CodeUnits(url[1..]);
    assert |head| == |us|;
    if i < |us| {
      if |us| == 1 {
        assert us[0] == url[0] as int;
      } else {
        assert !IsAsciiAlnum(url[0]);
      }
    } else {
      SanitizeAt(url[1..], i - |us|);
    }
  }

  /** A character outside the Basic Multilingual Plane is two code units and
      so becomes two underscores: `"a😀b"` gives `"a__b"`. */
  lemma AstralCharacter()
    ensures Sanitize("a\U{1F600}b") == "a__b"
  {
    var url := "a\U{1F600}b";
    assert url[1..] == "\U{1F600}b" && url[1..][1..] == "b" && "b"[1..] == [];
    assert !IsAsciiAlnum('\U{1F600}') && |Utf16Units('\U{1F600}')| == 2;
    assert Underscores(2) == "__";
  }

  /** A string of letters, digits and `_` is left alone. */
  lemma {:induction false} SanitizeFixes(s: string)
    requires IsSanitized(s)
    ensures Sanitize(s) == s
  {
    if s != [] {
      assert IsSanitized(s[1..]);
      SanitizeFixes(s[1..]);
      assert [s[0]] + s[1..] == s;
    }
  }

  /** Sanitising is idempotent. */
  lemma SanitizeIdempotent(url: string)
    ensures Sanitize(Sanitize(url)) == Sanitize(url)
  {
    SanitizeFixes(Sanitize(url));
  }

  /** Two URLs share a storage slot exactly when they sanitise alike. */
  lemma StorageKeySameIff(a: string, b: string)
    ensures StorageKey(a) == StorageKey(b) <==> Sanitize(a) == Sanitize(b)
  {
    if StorageKey(a) == StorageKey(b) {
      var ka, kb := StorageKey(a), StorageKey(b);
      assert Sanitize(a) == ka[|KeyPrefix|..|ka| - |KeySuffix|];
      assert Sanitize(b) == kb[|KeyPrefix|..|kb| - |KeySuffix|];
    }
  }

  /** Distinct URLs can collide: nothing disambiguates them. */
  lemma StorageKeyCollision()
    ensures StorageKey("a.b") == StorageKey("a/b") == "tracker/a_b.json"
  {
    assert Sanitize("a.b") == "a_b" by {
      assert "a.b"[1..] == ".b" && ".b"[1..] == "b" && "b"[1..] == [];
    }
    assert Sanitize("a/b") == "a_b" by {
      assert "a/b"[1..] == "/b" && "/b"[1..] == "b";
    }
  }
}
