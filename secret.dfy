/** Loading the shared secret from a file (the `-S` option of main, lines
  * 905-931): one fgets into a 256-byte buffer, then trailing characters
  * below ' ' are overwritten with NUL from the end, and a secret shorter
  * than two characters is refused. The file is given as its characters
  * (bytes, each below 256, with no NUL); opening and closing it are not
  * modelled. */
module Secret {
  import opened Wrappers

  /** sizeof(filesecret). */
  const SECRET_BUFF: nat := 256

  /** `*p < ' '` for a byte read into a `char`: where `char` is signed,
    * bytes from 0x80 up are negative and so below ' ' as well. */
  predicate BelowSpace(ch: char, signedChar: bool)
  {
    ch < ' ' || (signedChar && ch as int >= 0x80)
  }

  /** The text left once trailing characters below ' ' are removed. */
  function TrimEnd(s: string, signedChar: bool): (r: string)
    ensures |r| <= |s| && r == s[..|r|]
    ensures forall i :: |r| <= i < |s| ==> BelowSpace(s[i], signedChar)
    ensures r == [] || !BelowSpace(r[|r| - 1], signedChar)
    decreases |s|
  {
    if s != [] && BelowSpace(s[|s| - 1], signedChar) then TrimEnd(s[..|s| - 1], signedChar) else s
  }

  /** What fgets(filesecret, 256, fp) stores: the characters up to and
    * including the first newline, at most 255 of them; None at end of file. */
  function FgetsRaw(file: string): (r: Option<string>)
    ensures r.Some? ==> 0 < |r.value| < SECRET_BUFF && |r.value| <= |file| && r.value == file[..|r.value|]
    ensures r.None? <==> file == []
  {
    if file == [] then None else Some(file[..Chunk(file, 0)])
  }

  /** How many characters fgets takes when `n` are taken already. */
  function Chunk(file: string, n: nat): (k: nat)
    requires n <= |file| && n < SECRET_BUFF
    ensures n <= k <= |file| && k < SECRET_BUFF
    ensures file != [] ==> k > 0
    decreases |file| - n
  {
    if n == SECRET_BUFF - 1 || n == |file| then n
    else if file[n] == '\n' then n + 1
    else Chunk(file, n + 1)
  }

  datatype Loaded = ReadFails | TooShort | Loaded(secret: string)

  /** The secret a file yields, or why main exits with EXIT_FAILURE. */
  function ReadSecret(file: string, signedChar: bool): (r: Loaded)
    ensures r.Loaded? ==> |r.secret| >= 2
  {
    match FgetsRaw(file)
    case None => ReadFails
    case Some(chunk) =>
      var s := TrimEnd(chunk, signedChar);
      if |s| < 2 then TooShort else Loaded(s)
  }

  /** The trim loop, in place on the buffer: `n` is strlen(filesecret). The
    * characters removed are overwritten with NUL; the result is the new
    * strlen. */
  method TrimInPlace(a: array<char>, n: nat, signedChar: bool) returns (m: nat)
    requires n <= a.Length
    modifies a
    ensures m <= n && a[..m] == TrimEnd(old(a[..n]), signedChar)
    ensures forall i :: m <= i < n ==> a[i] == '\0'
    ensures a[n..] == old(a[n..])
  {
    ghost var s := a[..n];
    var p: int := n - 1;
    while p >= 0 && BelowSpace(a[p], signedChar)
      invariant -1 <= p < n
      invariant a[..p + 1] == s[..p + 1]
      invariant TrimEnd(s, signedChar) == TrimEnd(s[..p + 1], signedChar)
      invariant forall i :: p + 1 <= i < n ==> a[i] == '\0'
      invariant a[n..] == old(a[n..])
      decreases p
    {
      assert s[..p + 1][..p] == s[..p];
      a[p] := '\0';
      p := p - 1;
    }
    assert s[..p + 1] == a[..p + 1];
    m := p + 1;
  }

  /** Reading the secret file as main does: fgets into the 256-byte buffer,
    * the trim loop, then the length check. */
  method LoadSecret(file: string, signedChar: bool) returns (r: Loaded)
    ensures r == ReadSecret(file, signedChar)
  {
    var chunk := FgetsRaw(file);
    if chunk.None? {
      return ReadFails;
    }
    var a := new char[SECRET_BUFF];
    var n := |chunk.value|;
    forall i | 0 <= i < n {
      a[i] := chunk.value[i];
    }
    a[n] := '\0';
    assert a[..n] == chunk.value;
    var m := TrimInPlace(a, n, signedChar);
    if m < 2 {
      return TooShort;
    }
    return Loaded(a[..m]);
  }

  /** A secret line ended by a newline (or a CR LF) loads as the line itself
    * when its last character is not below ' '. */
  lemma {:induction false} SecretLine(secret: string, eol: string, rest: string, signedChar: bool)
    requires 2 <= |secret| && |secret| + |eol| < SECRET_BUFF
    requires forall i :: 0 <= i < |secret| ==> secret[i] != '\n'
    requires !BelowSpace(secret[|secret| - 1], signedChar)
    requires eol == "\n" || eol == "\r\n"
    ensures ReadSecret(secret + eol + rest, signedChar) == Loaded(secret)
  {
    var file := secret + eol + rest;
    var k := |secret| + |eol|;
    ChunkTo(file, 0, k);
    var chunk := file[..k];
    assert chunk == secret + eol;
    TrimSuffix(secret, eol, signedChar);
  }

  /** Characters that are all below ' ' are trimmed off whatever precedes
    * them, down to a last character that is not. */
  lemma {:induction false} TrimSuffix(s: string, tail: string, signedChar: bool)
    requires forall i :: 0 <= i < |tail| ==> BelowSpace(tail[i], signedChar)
    requires s != [] && !BelowSpace(s[|s| - 1], signedChar)
    ensures TrimEnd(s + tail, signedChar) == s
    decreases |tail|
  {
    if tail != [] {
      var t := s + tail;
      assert t[..|t| - 1] == s + tail[..|tail| - 1];
      TrimSuffix(s, tail[..|tail| - 1], signedChar);
    } else {
      assert s + tail == s;
    }
  }

  /** fgets stops right after the first newline when it comes early enough. */
  lemma {:induction false} ChunkTo(file: string, n: nat, k: nat)
    requires n < k <= |file| && k < SECRET_BUFF && file[k - 1] == '\n'
    requires forall i :: n <= i < k - 1 ==> file[i] != '\n'
    ensures Chunk(file, n) == k
    decreases k - n
  {
    if n < k - 1 {
      assert file[n] != '\n';
      ChunkTo(file, n + 1, k);
      assert Chunk(file, n) == Chunk(file, n + 1);
    }
  }

  /** Where `char` is signed, a secret whose last byte is 0x80 or above (a
    * Latin-1 'é', 0xE9, say) loses that byte along with the newline;
    * compared as unsigned, only the newline goes. */
  lemma HighByteTrimmed()
    ensures ReadSecret("abé\n", true) == Loaded("ab")
    ensures ReadSecret("abé\n", false) == Loaded("abé")
  {
    SecretLine("abé", "\n", "", false);
    assert "abé" + "\n" + "" == "abé\n";
    var file := "abé\n";
    ChunkTo(file, 0, 4);
    assert file[..4] == "ab" + "é\n";
    TrimSuffix("ab", "é\n", true);
  }
}
