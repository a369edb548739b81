/** The libc comparisons the configuration store relies on. A C string is the text before its
    terminator, so a `string` here is free of the NUL character. */
module CString {

  predicate NulFree(s: string) {
    '\0' !in s
  }

  /** The C string at the start of a buffer. */
  function CStr(buf: seq<char>): string {
    if buf == [] || buf[0] == '\0' then "" else [buf[0]] + CStr(buf[1..])
  }

  /** A string and its terminator read back as the string, whatever follows. */
  lemma {:induction false} CStrReadsBack(s: string, buf: seq<char>)
    requires NulFree(s) && s + "\0" <= buf
    ensures CStr(buf) == s
  {
    var t := s + "\0";
    assert buf[0] == t[0];
    if s != [] {
      assert t[1..] == s[1..] + "\0" && t[1..] <= buf[1..];
      CStrReadsBack(s[1..], buf[1..]);
    }
  }

  /** The sign of `strcmp(a, b)`. */
  function StrCmp(a: string, b: string): (c: int)
    ensures -1 <= c <= 1
  {
    if a == [] then (if b == [] then 0 else -1)
    else if b == [] then 1
    else if a[0] < b[0] then -1
    else if a[0] > b[0] then 1
    else StrCmp(a[1..], b[1..])
  }

  /** The sign of `memcmp(a, b, |a|)` where `b` is NUL-terminated and `a` holds no NUL. The bytes
      of `b` after `|a|` are never looked at, and its terminator is below every byte of `a`. */
  function MemCmp(a: string, b: string): (c: int)
    ensures -1 <= c <= 1
  {
    if a == [] then 0
    else if b == [] then 1
    else if a[0] < b[0] then -1
    else if a[0] > b[0] then 1
    else MemCmp(a[1..], b[1..])
  }

  predicate Less(a: string, b: string) {
    StrCmp(a, b) < 0
  }

  predicate ProperPrefix(a: string, b: string) {
    a <= b && a != b
  }

  /** Both comparisons are decided by the first character that differs, the smaller one first. */
  lemma {:induction false} FirstDifferenceDecides(p: string, a: string, b: string)
    requires a != "" && b != "" && a[0] < b[0]
    ensures StrCmp(p + a, p + b) == MemCmp(p + a, p + b) == -1
    ensures StrCmp(p + b, p + a) == MemCmp(p + b, p + a) == 1
  {
    if p == "" {
      assert p + a == a && p + b == b;
    } else {
      assert (p + a)[1..] == p[1..] + a && (p + b)[1..] == p[1..] + b;
      FirstDifferenceDecides(p[1..], a, b);
    }
  }

  /** The two comparisons differ on exactly one family: a first operand that is a proper prefix
      of the second, which `memcmp` calls equal and `strcmp` calls smaller. */
  lemma {:induction false} MemCmpVersusStrCmp(a: string, b: string)
    ensures MemCmp(a, b) == (if ProperPrefix(a, b) then 0 else StrCmp(a, b))
    ensures ProperPrefix(a, b) ==> StrCmp(a, b) == -1
    ensures MemCmp(a, b) == 0 <==> a <= b
  {
    if a != [] && b != [] && a[0] == b[0] {
      MemCmpVersusStrCmp(a[1..], b[1..]);
      assert a == [a[0]] + a[1..] && b == [b[0]] + b[1..];
    }
  }

  lemma {:induction false} StrCmpEqual(a: string, b: string)
    ensures StrCmp(a, b) == 0 <==> a == b
  {
    if a != [] && b != [] && a[0] == b[0] {
      StrCmpEqual(a[1..], b[1..]);
      assert a == [a[0]] + a[1..] && b == [b[0]] + b[1..];
    }
  }

  lemma {:induction false} StrCmpFlip(a: string, b: string)
    ensures StrCmp(b, a) == -StrCmp(a, b)
  {
    if a != [] && b != [] && a[0] == b[0] {
      StrCmpFlip(a[1..], b[1..]);
    }
  }

  lemma {:induction false} LessTransitive(a: string, b: string, c: string)
    requires Less(a, b) && Less(b, c)
    ensures Less(a, c)
  {
    if a != [] && b != [] && c != [] && a[0] == b[0] == c[0] {
      LessTransitive(a[1..], b[1..], c[1..]);
    }
  }

  /** Between a string and one of its extensions lie only extensions of that string. */
  lemma {:induction false} PrefixesAreContiguous(k: string, mid: string, ext: string)
    requires k <= ext && !Less(mid, k) && !Less(ext, mid)
    ensures k <= mid
  {
    if k != [] {
      assert mid != [] && ext != [];
      assert mid[0] == k[0] == ext[0];
      PrefixesAreContiguous(k[1..], mid[1..], ext[1..]);
      assert k == [k[0]] + k[1..] && mid == [mid[0]] + mid[1..];
    }
  }
}
