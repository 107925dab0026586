/**
 * The object-store side of the upload protocol (backend/app/services/storage.py):
 * key allocation, the public URL of a key, and the bucket itself with its
 * head (`verify_object_exists`) and delete operations.
 */
module Storage {
  import opened Wrappers

  // ---------------------------------------------------------------------------
  // str(n) for the non-negative integer ids the database hands out
  // ---------------------------------------------------------------------------

  predicate IsDigit(c: char) { '0' <= c <= '9' }

  predicate AllDigits(s: string) { forall i :: 0 <= i < |s| ==> IsDigit(s[i]) }

  function DigitChar(d: nat): (c: char)
    requires d < 10
    ensures IsDigit(c)
  {
    ('0' as int + d) as char
  }

  function DigitValue(c: char): nat
    requires IsDigit(c)
  {
    c as int - '0' as int
  }

  /** Python's `str(n)` for `n >= 0`: the decimal digits of `n`. */
  function Dec(n: nat): (s: string)
    ensures 1 <= |s|
    ensures AllDigits(s)
  {
    if n < 10 then [DigitChar(n)] else Dec(n / 10) + [DigitChar(n % 10)]
  }

  /** Python's `int(s)` restricted to strings of digits. */
  function ParseDec(s: string): nat
    requires AllDigits(s)
  {
    if s == [] then 0 else ParseDec(s[..|s| - 1]) * 10 + DigitValue(s[|s| - 1])
  }

  lemma {:induction false} ParseDecOfDec(n: nat)
    ensures ParseDec(Dec(n)) == n
  {
    if n >= 10 {
      var s := Dec(n);
      assert s[..|s| - 1] == Dec(n / 10);
      ParseDecOfDec(n / 10);
    }
  }

  /** Distinct ids have distinct decimal forms. */
  lemma DecInjective(a: nat, b: nat)
    ensures Dec(a) == Dec(b) ==> a == b
  {
    ParseDecOfDec(a);
    ParseDecOfDec(b);
  }

  // ---------------------------------------------------------------------------
  // String helpers
  // ---------------------------------------------------------------------------

  predicate StartsWith(s: string, prefix: string)
  {
    |prefix| <= |s| && s[..|prefix|] == prefix
  }

  predicate EndsWith(s: string, suffix: string)
  {
    |suffix| <= |s| && s[|s| - |suffix|..] == suffix
  }

  /** `s.rfind(c)`: the last index holding `c`, or -1. */
  function RFind(s: string, c: char): (i: int)
    ensures -1 <= i < |s|
    ensures i >= 0 ==> s[i] == c
    ensures forall j :: i < j < |s| ==> s[j] != c
  {
    if s == [] then -1
    else if s[|s| - 1] == c then |s| - 1
    else RFind(s[..|s| - 1], c)
  }

  /** The index of the first `'/'` in `s`, or -1. */
  function FirstSlash(s: string): (i: int)
    ensures -1 <= i < |s|
    ensures i >= 0 ==> s[i] == '/'
    ensures forall j :: 0 <= j < |s| && (i < 0 || j < i) ==> s[j] != '/'
  {
    if s == [] then -1
    else if s[0] == '/' then 0
    else
      var j := FirstSlash(s[1..]);
      if j < 0 then -1 else j + 1
  }

  /** ASCII `str.lower()` on one character. */
  function LowerChar(c: char): char
  {
    if 'A' <= c <= 'Z' then (c as int + 32) as char else c
  }

  /** `str.lower()`, restricted to ASCII case mapping. */
  function Lower(s: string): string
  {
    seq(|s|, i requires 0 <= i < |s| => LowerChar(s[i]))
  }

  // ---------------------------------------------------------------------------
  // Path(filename).suffix
  // ---------------------------------------------------------------------------

  /**
   * `PurePosixPath(p).name`: the last '/'-separated component, where empty
   * components and "." components are dropped by path parsing; "" if none is left.
   */
  function Name(p: string): (name: string)
    ensures '/' !in name
    decreases |p|
  {
    var k := RFind(p, '/');
    var last := p[k + 1..];
    if last != "" && last != "." then last
    else if k < 0 then ""
    else Name(p[..k])
  }

  /** `Path.suffix` (Python 3.12/3.13): from the last '.' of the name, if that dot is neither first nor last. */
  function Suffix(name: string): string
  {
    var i := RFind(name, '.');
    if 0 < i < |name| - 1 then name[i..] else ""
  }

  const DEFAULT_EXTENSION := ".bin"

  /** `Path(filename).suffix.lower() or ".bin"`. */
  function Extension(filename: string): (ext: string)
    ensures 2 <= |ext| && ext[0] == '.'
    ensures '/' !in ext
    ensures forall i :: 0 <= i < |ext| ==> !('A' <= ext[i] <= 'Z')
  {
    var suffix := Suffix(Name(filename));
    var lowered := Lower(suffix);
    if lowered == "" then DEFAULT_EXTENSION
    else
      assert forall i :: 0 <= i < |suffix| ==> suffix[i] in Name(filename);
      lowered
  }

  // ---------------------------------------------------------------------------
  // generate_key and the owner prefix
  // ---------------------------------------------------------------------------

  predicate IsHexDigit(c: char) { '0' <= c <= '9' || 'a' <= c <= 'f' }

  /** `uuid.uuid4().hex`: 32 lower-case hexadecimal digits. */
  predicate IsHexToken(t: string)
  {
    |t| == 32 && forall i :: 0 <= i < |t| ==> IsHexDigit(t[i])
  }

  /** The prefix `f"{user_id}/"` that namespaces a user's keys. */
  function OwnerPrefix(userId: nat): string
  {
    Dec(userId) + "/"
  }

  /** `generate_key(user_id, filename)`, with the uuid4 hex token passed in. */
  function GenerateKey(userId: nat, filename: string, token: string): (key: string)
    ensures StartsWith(key, OwnerPrefix(userId))
    ensures EndsWith(key, Extension(filename))
    ensures |key| == |OwnerPrefix(userId)| + |token| + |Extension(filename)|
  {
    Dec(userId) + "/" + token + Extension(filename)
  }

  /**
   * The structure of a generated key: the owner's decimal id, then the only '/',
   * then the token, then the extension; the extension never comes from anything but
   * the file name's suffix.
   */
  lemma GeneratedKeyShape(userId: nat, filename: string, token: string)
    requires IsHexToken(token)
    ensures var key := GenerateKey(userId, filename, token);
      && StartsWith(key, OwnerPrefix(userId))
      && EndsWith(key, Extension(filename))
      && key[|Dec(userId)| + 1..|Dec(userId)| + 33] == token
      && forall i :: 0 <= i < |key| ==> (key[i] == '/' <==> i == |Dec(userId)|)
  {
    var d, ext := Dec(userId), Extension(filename);
    var key := GenerateKey(userId, filename, token);
    assert key == d + "/" + token + ext;
    forall i | 0 <= i < |key| ensures key[i] == '/' <==> i == |d| {
      if i < |d| {
        assert key[i] == d[i];
      } else if |d| < i < |d| + 33 {
        assert key[i] == token[i - |d| - 1];
      } else if i >= |d| + 33 {
        assert key[i] == ext[i - |d| - 33];
      }
    }
  }

  /** A string that starts with `a + "/"`, where `a` has no '/', has its first '/' at `|a|`. */
  lemma {:induction false} FirstSlashAfter(s: string, a: string)
    requires AllDigits(a)
    requires StartsWith(s, a + "/")
    ensures FirstSlash(s) == |a|
  {
    if a != [] {
      assert s[..|a| + 1] == a + "/";
      assert s[0] == a[0];
      assert s[1..][..|a|] == s[..|a| + 1][1..] == a[1..] + "/";
      FirstSlashAfter(s[1..], a[1..]);
    } else {
      assert s[0] == '/';
    }
  }

  /**
   * At most one user's prefix fits any key: `k.startswith(f"{u}/")` and
   * `k.startswith(f"{v}/")` together force `u == v`.
   */
  lemma OwnerPrefixExclusive(key: string, u: nat, v: nat)
    requires StartsWith(key, OwnerPrefix(u)) && StartsWith(key, OwnerPrefix(v))
    ensures u == v
  {
    FirstSlashAfter(key, Dec(u));
    FirstSlashAfter(key, Dec(v));
    assert Dec(u) == key[..FirstSlash(key)] == Dec(v);
    DecInjective(u, v);
  }

  /** A key generated for `u` passes the owner check of user `v` exactly when `v == u`. */
  lemma GeneratedKeyOwnedOnlyByCreator(u: nat, v: nat, filename: string, token: string)
    ensures StartsWith(GenerateKey(u, filename, token), OwnerPrefix(v)) <==> v == u
  {
    var key := GenerateKey(u, filename, token);
    assert key[..|OwnerPrefix(u)|] == OwnerPrefix(u);
    if StartsWith(key, OwnerPrefix(v)) {
      OwnerPrefixExclusive(key, u, v);
    }
  }

  // ---------------------------------------------------------------------------
  // The suffix rule
  // ---------------------------------------------------------------------------

  lemma {:induction false} RFindAfterLast(x: string, c: char, y: string)
    requires c !in y
    ensures RFind(x + [c] + y, c) == |x|
  {
    var s := x + [c] + y;
    if y != [] {
      assert s[..|s| - 1] == x + [c] + y[..|y| - 1];
      assert s[|s| - 1] == y[|y| - 1];
      RFindAfterLast(x, c, y[..|y| - 1]);
    } else {
      assert s[|s| - 1] == c;
    }
  }

  lemma NameOfPlainName(p: string)
    requires '/' !in p && p != "" && p != "."
    ensures Name(p) == p
  {
    assert p[0..] == p;
  }

  lemma SuffixOfDotted(stem: string, suf: string)
    requires stem != "" && suf != "" && '.' !in suf
    ensures Suffix(stem + "." + suf) == "." + suf
  {
    var name := stem + "." + suf;
    RFindAfterLast(stem, '.', suf);
    assert name[|stem|..] == "." + suf;
  }

  lemma LowerDotted(suf: string)
    ensures Lower("." + suf) == "." + Lower(suf)
  {
  }

  /** Only the final suffix counts, lower-cased: `Extension(stem + "." + suf) == "." + lower(suf)`. */
  lemma ExtensionIsLastSuffix(stem: string, suf: string)
    requires stem != "" && suf != ""
    requires '/' !in stem && '/' !in suf && '.' !in suf
    ensures Extension(stem + "." + suf) == "." + Lower(suf)
  {
    var name := stem + "." + suf;
    assert '/' !in name by {
      forall i | 0 <= i < |name| ensures name[i] != '/' {
        if i < |stem| { assert name[i] == stem[i]; }
        else if i > |stem| { assert name[i] == suf[i - |stem| - 1]; }
      }
    }
    assert name != "." by { assert |name| >= 3; }
    NameOfPlainName(name);
    SuffixOfDotted(stem, suf);
    LowerDotted(suf);
  }

  /** Directories in the file name play no part: only the last component's suffix counts. */
  lemma ExtensionOfLastComponent(dir: string, name: string)
    requires name != "" && name != "." && '/' !in name
    ensures Extension(dir + "/" + name) == Extension(name)
  {
    var p := dir + "/" + name;
    RFindAfterLast(dir, '/', name);
    assert p[|dir| + 1..] == name;
    NameOfPlainName(name);
  }

  lemma SuffixWithoutDot(name: string)
    requires '.' !in name || ('.' !in name[1..] && name[0] == '.')
    ensures Suffix(name) == ""
  {
    if '.' in name {
      assert name == [] + ['.'] + name[1..];
      RFindAfterLast([], '.', name[1..]);
    }
  }

  /** A name without a dot, or whose only dot is its first character, takes the default. */
  lemma ExtensionWithoutSuffix(name: string)
    requires name != "" && name != "."
    requires '/' !in name
    requires '.' !in name || ('.' !in name[1..] && name[0] == '.')
    ensures Extension(name) == DEFAULT_EXTENSION
  {
    NameOfPlainName(name);
    SuffixWithoutDot(name);
    assert Lower("") == "";
  }

  // ---------------------------------------------------------------------------
  // public_url / get_public_url
  // ---------------------------------------------------------------------------

  /** `s.rstrip("/")`. */
  function RStripSlash(s: string): (r: string)
    ensures StartsWith(s, r)
    ensures r == [] || r[|r| - 1] != '/'
    ensures forall i :: |r| <= i < |s| ==> s[i] == '/'
  {
    if s != [] && s[|s| - 1] == '/' then RStripSlash(s[..|s| - 1]) else s
  }

  /** `get_public_url(key)`: the configured base without trailing slashes, one '/', then the key. */
  function GetPublicUrl(configuredBase: string, key: string): (url: string)
    ensures EndsWith(url, "/" + key)
    ensures StartsWith(configuredBase, url[..|url| - |key| - 1])
  {
    RStripSlash(configuredBase) + "/" + key
  }

  /** A string of `n` slashes. */
  function Slashes(n: nat): (s: string)
    ensures |s| == n && forall i :: 0 <= i < n ==> s[i] == '/'
  {
    if n == 0 then "" else Slashes(n - 1) + "/"
  }

  lemma {:induction false} RStripSlashAppended(base: string, n: nat)
    ensures RStripSlash(base + Slashes(n)) == RStripSlash(base)
  {
    if n > 0 {
      var s := base + Slashes(n);
      assert s[..|s| - 1] == base + Slashes(n - 1);
      RStripSlashAppended(base, n - 1);
    } else {
      assert base + Slashes(0) == base;
    }
  }

  /**
   * The public URL is the base, stripped of its trailing slashes, joined to the key by
   * exactly one '/': adding slashes to the configured base changes nothing.
   */
  lemma PublicUrlSingleSeparator(configuredBase: string, n: nat, key: string)
    ensures GetPublicUrl(configuredBase + Slashes(n), key) == GetPublicUrl(configuredBase, key)
    ensures var url := GetPublicUrl(configuredBase, key);
      var b := RStripSlash(configuredBase);
      && StartsWith(configuredBase, b) && (b == [] || b[|b| - 1] != '/')
      && url[..|b|] == b && url[|b|] == '/' && url[|b| + 1..] == key
  {
    RStripSlashAppended(configuredBase, n);
  }

  // ---------------------------------------------------------------------------
  // The bucket
  // ---------------------------------------------------------------------------

  /** What `head_object` reports of a stored object. */
  datatype ObjectMeta = ObjectMeta(sizeBytes: int, contentType: string)

  /** The R2 bucket, seen as a map from key to the metadata of the object stored there. */
  class Bucket {
    var objects: map<string, ObjectMeta>

    constructor (objects: map<string, ObjectMeta>)
      ensures this.objects == objects
    {
      this.objects := objects;
    }

    /** `verify_object_exists(key)`: the stored size and content type, or None; reads only. */
    method VerifyObjectExists(key: string) returns (info: Option<ObjectMeta>)
      ensures info.Some? <==> key in objects
      ensures info.Some? ==> info.value == objects[key]
    {
      if key in objects {
        info := Some(objects[key]);
      } else {
        info := None;
      }
    }

    /**
     * `delete_object(key)`: True unless the store reports an error (`clientError`,
     * standing for botocore's ClientError). Deleting an absent key succeeds.
     */
    method DeleteObject(key: string, clientError: bool) returns (deleted: bool)
      modifies this
      ensures deleted == !clientError
      ensures deleted ==> key !in objects && objects == old(objects) - {key}
      ensures !deleted ==> objects == old(objects)
    {
      if clientError {
        deleted := false;
      } else {
        objects := objects - {key};
        deleted := true;
      }
    }

    /** The client's PUT through the presigned URL: creates or overwrites the object at `key`. */
    method Put(key: string, meta: ObjectMeta)
      modifies this
      ensures objects == old(objects)[key := meta]
    {
      objects := objects[key := meta];
    }
  }
}
