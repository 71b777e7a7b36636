/** JSON pointers as the removed-facts list writes them (section 3 of RFC 6901) and as a reader resolves them. */
module Pointers {
  import opened Common

  function Replace(s: string, c: char, with: string): string {
    if s == "" then "" else (if s[0] == c then with else [s[0]]) + Replace(s[1..], c, with)
  }

  /** `key.replace("~", "~0").replace("/", "~1")`. */
  function Escape(key: string): string {
    Replace(Replace(key, '~', "~0"), '/', "~1")
  }

  /** One pass replacing a two-character escape. */
  function Decode(s: string, escape: char, plain: char): string {
    if |s| >= 2 && s[0] == '~' && s[1] == escape then [plain] + Decode(s[2..], escape, plain)
    else if s == "" then ""
    else [s[0]] + Decode(s[1..], escape, plain)
  }

  /** The order section 4 of RFC 6901 prescribes: "~1" first, "~0" second. */
  function Unescape(token: string): string {
    Decode(Decode(token, '1', '/'), '0', '~')
  }

  lemma {:induction false} EscapedHasNoSlash(key: string)
    ensures forall i :: 0 <= i < |Escape(key)| ==> Escape(key)[i] != '/'
  {
    if key != "" {
      EscapedHasNoSlash(key[1..]);
      EscapeHead(key);
    }
  }

  /** Escaping works character by character. */
  lemma EscapeHead(key: string)
    requires key != ""
    ensures Escape(key) == (if key[0] == '~' then "~0" else if key[0] == '/' then "~1" else [key[0]]) + Escape(key[1..])
  {
    var rest := Replace(key[1..], '~', "~0");
    if key[0] == '~' {
      var whole := "~0" + rest;
      assert whole[1..] == ['0'] + rest && whole[1..][1..] == rest;
      calc {
        Escape(key);
        Replace(whole, '/', "~1");
        ['~'] + Replace(whole[1..], '/', "~1");
        ['~'] + (['0'] + Replace(rest, '/', "~1"));
        "~0" + Escape(key[1..]);
      }
    } else {
      assert ([key[0]] + rest)[1..] == rest;
    }
  }

  /** The first decoding pass leaves exactly the tildes still escaped. */
  lemma {:induction false} FirstPass(key: string)
    ensures Decode(Escape(key), '1', '/') == Replace(key, '~', "~0")
  {
    if key != "" {
      EscapeHead(key);
      FirstPass(key[1..]);
      var rest := Escape(key[1..]);
      if key[0] == '~' {
        var s := "~0" + rest;
        assert s[1..] == ['0'] + rest && s[1..][1..] == rest;
        assert Decode(s[1..], '1', '/') == ['0'] + Decode(rest, '1', '/');
      } else if key[0] == '/' {
        assert ("~1" + rest)[2..] == rest;
      } else {
        assert ([key[0]] + rest)[1..] == rest;
      }
    }
  }

  lemma {:induction false} SecondPass(key: string)
    ensures Decode(Replace(key, '~', "~0"), '0', '~') == key
  {
    if key != "" {
      SecondPass(key[1..]);
      var rest := Replace(key[1..], '~', "~0");
      if key[0] == '~' {
        assert ("~0" + rest)[2..] == rest;
      } else {
        assert ([key[0]] + rest)[1..] == rest;
      }
    }
  }

  lemma UnescapeInvertsEscape(key: string)
    ensures Unescape(Escape(key)) == key
  {
    FirstPass(key);
    SecondPass(key);
  }

  // ------------------------------------------------------------------ array positions

  function Digit(d: nat): char
    requires d < 10
  {
    ('0' as int + d) as char
  }

  /** An index the way Python prints it. */
  function Decimal(n: nat): (text: string)
    ensures |text| > 0
  {
    if n < 10 then [Digit(n)] else Decimal(n / 10) + [Digit(n % 10)]
  }

  /** Reads a run of digits; anything else is not an array position. */
  function ReadIndex(text: string): Option<nat> {
    if text == "" then None
    else
      var n := |text| - 1;
      if !('0' <= text[n] <= '9') then None
      else
        var d: nat := text[n] as int - '0' as int;
        if n == 0 then Some(d)
        else
          match ReadIndex(text[..n])
          case Some(high) => Some(10 * high + d)
          case None => None
  }

  lemma {:induction false} IndexRoundTrip(n: nat)
    ensures ReadIndex(Decimal(n)) == Some(n)
  {
    if n >= 10 {
      IndexRoundTrip(n / 10);
      assert (Decimal(n / 10) + [Digit(n % 10)])[..|Decimal(n / 10)|] == Decimal(n / 10);
    }
  }

  /** The digits are the usual ones, and every further digit multiplies what stands before it by ten. */
  lemma DecimalIsPositional(n: nat, d: nat)
    requires d < 10
    ensures Decimal(d) == ["0123456789"[d]]
    ensures n > 0 ==> Decimal(10 * n + d) == Decimal(n) + Decimal(d)
  {
    assert (10 * n + d) / 10 == n && (10 * n + d) % 10 == d;
  }

  /** A number has one spelling without leading zeros. */
  lemma {:induction false} ReadBackIsDecimal(text: string, n: nat)
    requires ReadIndex(text) == Some(n) && (text[0] != '0' || |text| == 1)
    ensures text == Decimal(n)
    ensures text[0] != '0' ==> n > 0
  {
    var last := |text| - 1;
    if last > 0 {
      var high := ReadIndex(text[..last]).value;
      ReadBackIsDecimal(text[..last], high);
      DecimalIsPositional(high, n - 10 * high);
      assert text == text[..last] + [text[last]];
    }
  }

  lemma {:induction false} DecimalHasNoLeadingZero(n: nat)
    ensures n > 0 ==> Decimal(n)[0] != '0'
    ensures '0' <= Decimal(n)[0] <= '9'
  {
    if n >= 10 { DecimalHasNoLeadingZero(n / 10); }
  }

  lemma {:induction false} DecimalNeedsNoEscape(n: nat)
    ensures Escape(Decimal(n)) == Decimal(n)
  {
    DecimalIsDigits(n);
    PlainIsUnescaped(Decimal(n));
  }

  lemma {:induction false} DecimalIsDigits(n: nat)
    ensures forall i :: 0 <= i < |Decimal(n)| ==> '0' <= Decimal(n)[i] <= '9'
  {
    if n >= 10 { DecimalIsDigits(n / 10); }
  }

  lemma {:induction false} PlainIsUnescaped(s: string)
    requires forall i :: 0 <= i < |s| ==> s[i] != '~' && s[i] != '/'
    ensures Escape(s) == s
  {
    if s != "" {
      EscapeHead(s);
      PlainIsUnescaped(s[1..]);
    }
  }

  // ------------------------------------------------------------------ whole pointers

  type Path = seq<string>

  /** Each step down appends a slash and the escaped token. */
  function Render(path: Path): string {
    if path == [] then "" else Render(path[..|path| - 1]) + "/" + Escape(path[|path| - 1])
  }

  /** Where the last slash is, or -1. */
  function LastSlash(text: string): (at: int)
    ensures -1 <= at < |text|
    ensures at >= 0 ==> text[at] == '/'
    ensures forall i :: at < i < |text| ==> text[i] != '/'
  {
    if text == "" then -1
    else if text[|text| - 1] == '/' then |text| - 1
    else LastSlash(text[..|text| - 1])
  }

  /** A reader splits at the slashes and unescapes each token. */
  function Parse(text: string): Option<Path>
    decreases |text|
  {
    if text == "" then Some([])
    else
      var at := LastSlash(text);
      if at < 0 then None
      else
        match Parse(text[..at])
        case Some(before) => Some(before + [Unescape(text[at + 1..])])
        case None => None
  }

  lemma SlashBefore(before: string, last: string)
    requires forall i :: 0 <= i < |last| ==> last[i] != '/'
    ensures var text := before + "/" + last;
            LastSlash(text) == |before| && text[..|before|] == before && text[|before| + 1..] == last
  {
    hide LastSlash;
    var text := before + "/" + last;
    assert text[|before|] == '/';
    assert forall i :: |before| < i < |text| ==> text[i] == last[i - |before| - 1];
  }

  /** A pointer names one path: rendering is injective and reading gives the path back. */
  lemma {:induction false} PointerRoundTrip(path: Path)
    ensures Parse(Render(path)) == Some(path)
  {
    hide Escape, Unescape, LastSlash;
    if path != [] {
      var n := |path| - 1;
      var before, last := Render(path[..n]), Escape(path[n]);
      PointerRoundTrip(path[..n]);
      EscapedHasNoSlash(path[n]);
      UnescapeInvertsEscape(path[n]);
      var text := before + "/" + last;
      SlashBefore(before, last);
      assert Parse(text) == Some(path[..n] + [path[n]]);
      assert path[..n] + [path[n]] == path;
    }
  }

  lemma RenderIsInjective(a: Path, b: Path)
    requires Render(a) == Render(b)
    ensures a == b
  {
    PointerRoundTrip(a);
    PointerRoundTrip(b);
  }
}
