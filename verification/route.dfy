/** The text form of IP routes, as `ip route` prints them: printing and parsing. */
module RouteText {
  import opened Wrappers

  type uint8 = n: nat | n < 0x100
  type uint64 = n: nat | n < 0x1_0000_0000_0000_0000
  type int64 = n: int | -0x8000_0000_0000_0000 <= n < 0x8000_0000_0000_0000

  // ---------------------------------------------------------------- decimal numbers

  predicate IsDigit(c: char) { '0' <= c <= '9' }

  function DigitValue(c: char): nat
    requires IsDigit(c)
  {
    assert '0' as int <= c as int;
    c as int - '0' as int
  }

  function Digit(d: nat): (c: char)
    requires d < 10
    ensures IsDigit(c) && DigitValue(c) == d
  {
    ('0' as int + d) as char
  }

  predicate AllDigits(s: string) { forall i | 0 <= i < |s| :: IsDigit(s[i]) }

  function Format(n: nat): (s: string)
    ensures s != "" && AllDigits(s)
  {
    if n < 10 then [Digit(n)] else Format(n / 10) + [Digit(n % 10)]
  }

  function Value(s: string): nat
    requires AllDigits(s)
  {
    if s == "" then 0 else Value(s[..|s| - 1]) * 10 + DigitValue(s[|s| - 1])
  }

  lemma {:induction false} ValueOfFormat(n: nat)
    ensures Value(Format(n)) == n
  {
    if n >= 10 {
      ValueOfFormat(n / 10);
      assert Format(n)[..|Format(n)| - 1] == Format(n / 10);
    } else {
      assert Format(n)[..0] == "";
    }
  }

  /** Digits only, and less than the limit. */
  function ParseUint(s: string, limit: nat): (r: Option<nat>)
    ensures r.Some? ==> r.value < limit
  {
    if s != "" && AllDigits(s) && Value(s) < limit then Some(Value(s)) else None
  }

  /** A 64-bit number, with a sign or without. */
  function ParseInt(s: string): Option<int64> {
    if s != "" && s[0] == '-' then
      match ParseUint(s[1..], 0x8000_0000_0000_0001)
      case Some(n) => var m: int := n; Some(-m)
      case None => None
    else
      match ParseUint(if s != "" && s[0] == '+' then s[1..] else s, 0x8000_0000_0000_0000)
      case Some(n) => Some(n)
      case None => None
  }

  lemma ParseFormatted(n: nat, limit: nat)
    ensures ParseUint(Format(n), limit) == if n < limit then Some(n) else None
    ensures ParseInt(Format(n)) == if n < 0x8000_0000_0000_0000 then Some(n) else None
  {
    hide Format, Value;
    ValueOfFormat(n);
    assert IsDigit(Format(n)[0]);
  }

  // ---------------------------------------------------------------- words

  function Split(line: string, sep: char): (words: seq<string>)
    ensures words != [] && forall w <- words :: sep !in w
  {
    if line == "" then [""]
    else
      var words := Split(line[1..], sep);
      if line[0] == sep then [""] + words else [[line[0]] + words[0]] + words[1..]
  }

  function Join(words: seq<string>, sep: char): string
    requires words != []
  {
    if |words| == 1 then words[0] else words[0] + [sep] + Join(words[1..], sep)
  }

  lemma {:induction false} SplitFirst(w: string, sep: char, rest: string)
    requires sep !in w
    ensures Split(w, sep) == [w]
    ensures Split(w + [sep] + rest, sep) == [w] + Split(rest, sep)
  {
    if w == "" {
      assert w + [sep] + rest == [sep] + rest;
    } else {
      SplitFirst(w[1..], sep, rest);
      assert (w + [sep] + rest)[1..] == w[1..] + [sep] + rest;
      assert [w[0]] + w[1..] == w;
    }
  }

  /** Words that do not hold the separator are found again. */
  lemma {:induction false} SplitJoined(words: seq<string>, sep: char)
    requires words != [] && forall w <- words :: sep !in w
    ensures Split(Join(words, sep), sep) == words
  {
    hide Split;
    if |words| == 1 {
      SplitFirst(words[0], sep, "");
      assert words == [words[0]];
    } else {
      SplitJoined(words[1..], sep);
      SplitFirst(words[0], sep, Join(words[1..], sep));
    }
  }

  // ---------------------------------------------------------------- routes

  datatype Addr = V4(bits: nat) | V6(bits: nat)

  function Width(a: Addr): nat { if a.V4? then 32 else 128 }

  /** An address and the length of its prefix. */
  datatype Net = Net(ip: Addr, ones: nat)

  datatype Route = Route(iface: string, gw: Option<Addr>, proto: int64, metric: uint64,
                         src: Option<Addr>, dest: Option<Net>, scope: uint8)

  const BLANK := Route("", None, 0, 0, None, None, 0)

  /** Text of addresses. */
  datatype AddrText = AddrText(format: Addr -> string, parse: string -> Option<Addr>)

  predicate AddrChars(t: string) {
    forall c <- t :: c in "0123456789abcdef.:"
  }

  ghost predicate GoodText(c: AddrText, a: Addr) {
    var t := c.format(a);
    t != "" && AddrChars(t) && (':' in t <==> a.V6?) && c.parse(t) == Some(a)
  }

  /** Addresses are printed in digits, dots and colons, and are read back as they were. */
  ghost predicate Faithful(c: AddrText) {
    forall a :: GoodText(c, a)
  }

  const RTPROT_UNSPEC := 0
  const RTPROT_KERNEL := 2
  const RTPROT_BOOT := 3
  const RTPROT_STATIC := 4

  const SCOPE_UNIVERSE: uint8 := 0
  const SCOPE_SITE: uint8 := 200
  const SCOPE_LINK: uint8 := 253
  const SCOPE_HOST: uint8 := 254
  const SCOPE_NOWHERE: uint8 := 255

  function Str2Scope(str: string): uint8 {
    if str == "universe" || str == "global" then SCOPE_UNIVERSE
    else if str == "site" then SCOPE_SITE
    else if str == "link" then SCOPE_LINK
    else if str == "host" then SCOPE_HOST
    else if str == "nowhere" then SCOPE_NOWHERE
    else
      match ParseInt(str)
      case Some(i) => i % 0x100
      case None => 0
  }

  function Scope2Str(s: uint8): string {
    if s == SCOPE_UNIVERSE then "global"
    else if s == SCOPE_SITE then "site"
    else if s == SCOPE_LINK then "link"
    else if s == SCOPE_HOST then "host"
    else if s == SCOPE_NOWHERE then "nowhere"
    else Format(s)
  }

  function Str2Proto(str: string): int64 {
    if str == "kernel" then RTPROT_KERNEL
    else if str == "boot" || str == "dhcp" then RTPROT_BOOT
    else if str == "static" then RTPROT_STATIC
    else
      match ParseInt(str)
      case Some(i) => i
      case None => RTPROT_UNSPEC
  }

  function Proto2Str(p: int64): string {
    if p == RTPROT_KERNEL then "kernel"
    else if p == RTPROT_BOOT then "dhcp"
    else if p == RTPROT_STATIC then "static"
    else
      var n: int := p;
      if n < 0 then "-" + Format(-n) else Format(n)
  }

  /** No number reads like a name. */
  lemma FormatIsNoName(n: nat, name: string)
    requires name != "" && !IsDigit(name[0])
    ensures Format(n) != name
  {
    hide Format;
    assert IsDigit(Format(n)[0]);
  }

  /** The numbers of the names; in Linux they are constants of rtnetlink. */
  lemma NamedScopes()
    ensures Str2Scope("global") == Str2Scope("universe") == 0 && Scope2Str(0) == "global"
    ensures Str2Scope("site") == 200 && Scope2Str(200) == "site"
    ensures Str2Scope("link") == 253 && Scope2Str(253) == "link"
    ensures Str2Scope("host") == 254 && Scope2Str(254) == "host"
    ensures Str2Scope("nowhere") == 255 && Scope2Str(255) == "nowhere"
  {
    var site, link, host, nowhere := "site", "link", "host", "nowhere";
    assert site[0] == 's' && link[0] == 'l' && host[0] == 'h' && nowhere[0] == 'n';
  }

  lemma NamedProtos()
    ensures Str2Proto("kernel") == 2 && Proto2Str(2) == "kernel"
    ensures Str2Proto("boot") == Str2Proto("dhcp") == 3 && Proto2Str(3) == "dhcp"
    ensures Str2Proto("static") == 4 && Proto2Str(4) == "static"
  {
    var boot, dhcp, static_ := "boot", "dhcp", "static";
    assert boot[0] == 'b' && dhcp[0] == 'd' && static_[0] == 's';
  }

  /** A scope is cut to eight bits, and a number too large is 0. */
  lemma NumberedScope(n: nat)
    ensures Str2Scope(Format(n)) == if n < 0x8000_0000_0000_0000 then n % 256 else 0
  {
    hide Format, ParseInt;
    FormatIsNoName(n, "universe");
    FormatIsNoName(n, "global");
    FormatIsNoName(n, "site");
    FormatIsNoName(n, "link");
    FormatIsNoName(n, "host");
    FormatIsNoName(n, "nowhere");
    ParseFormatted(n, 1);
  }

  lemma ScopeNumber(s: uint8)
    ensures Str2Scope(Format(s)) == s
  {
    NumberedScope(s);
  }

  lemma NoSpaceInDigits(n: nat)
    ensures ' ' !in Format(n)
  {
    hide Format;
  }

  /** Every scope, named or numbered, is read back as it was. */
  lemma ScopeRoundTrip(s: uint8)
    ensures Str2Scope(Scope2Str(s)) == s && ' ' !in Scope2Str(s)
  {
    hide Format, ParseInt;
    ScopeNumber(s);
    NoSpaceInDigits(s);
  }

  lemma ProtoNumber(p: int64)
    requires p >= 0
    ensures Str2Proto(Format(p)) == p
  {
    hide Format, ParseInt;
    FormatIsNoName(p, "kernel");
    FormatIsNoName(p, "boot");
    FormatIsNoName(p, "dhcp");
    FormatIsNoName(p, "static");
    ParseFormatted(p, 1);
  }

  lemma ProtoNegative(n: nat)
    requires 0 < n <= 0x8000_0000_0000_0000
    ensures Str2Proto("-" + Format(n)) == 0 - n && ' ' !in "-" + Format(n)
  {
    hide Format, ParseUint;
    var s := "-" + Format(n);
    assert s[0] == '-' && s[1..] == Format(n);
    ParseFormatted(n, 0x8000_0000_0000_0001);
    NoSpaceInDigits(n);
  }

  /** So is every protocol. */
  lemma ProtoRoundTrip(p: int64)
    ensures Str2Proto(Proto2Str(p)) == p && ' ' !in Proto2Str(p)
  {
    hide Format, ParseInt;
    var i: int := p;
    if i < 0 {
      ProtoNegative(-i);
    } else {
      ProtoNumber(p);
      NoSpaceInDigits(p);
    }
  }

  // ---------------------------------------------------------------- printing

  /** The CIDR notation, or the address alone if the prefix is all of it. */
  function DestText(c: AddrText, d: Option<Net>): string {
    match d
    case None => "default"
    case Some(n) => if n.ones == Width(n.ip) then c.format(n.ip) else c.format(n.ip) + "/" + Format(n.ones)
  }

  /** A key and its value, if it is to be printed. */
  function Field(shown: bool, k: string, v: string): seq<(string, string)> {
    if shown then [(k, v)] else []
  }

  function AddrOr(c: AddrText, a: Option<Addr>): string { if a.Some? then c.format(a.value) else "" }

  /** The keys and values shown for a route. */
  function Fields(c: AddrText, r: Route): seq<(string, string)> {
    Field(r.gw.Some?, "via", AddrOr(c, r.gw))
    + (Field(r.iface != "", "dev", r.iface)
       + (Field(r.proto > 0, "proto", Proto2Str(r.proto))
          + (Field(r.scope > 0, "scope", Scope2Str(r.scope))
             + (Field(r.src.Some?, "src", AddrOr(c, r.src))
                + (Field(r.metric != 0, "metric", Format(r.metric)) + [])))))
  }

  function Flat(fields: seq<(string, string)>): seq<string>
    decreases |fields|
  {
    if fields == [] then [] else [fields[0].0, fields[0].1] + Flat(fields[1..])
  }

  function Words(c: AddrText, r: Route): seq<string> { [DestText(c, r.dest)] + Flat(Fields(c, r)) }

  function Text(c: AddrText, r: Route): string { Join(Words(c, r), ' ') }

  // ---------------------------------------------------------------- parsing

  /** Index of the first separator, or the length if there is none. */
  function IndexOf(s: string, sep: char): (i: nat)
    ensures i <= |s| && (i < |s| ==> s[i] == sep) && forall j | 0 <= j < i :: s[j] != sep
  {
    if s == "" || s[0] == sep then 0 else 1 + IndexOf(s[1..], sep)
  }

  /** An address and a prefix length no longer than the address. */
  function ParseCidr(c: AddrText, s: string): Option<Net> {
    var i := IndexOf(s, '/');
    if i == |s| then None
    else
      match c.parse(s[..i])
      case None => None
      case Some(ip) =>
        match ParseUint(s[i + 1..], Width(ip) + 1)
        case None => None
        case Some(ones) => Some(Net(ip, ones))
  }

  function NetFromCidr(c: AddrText, s: string): Option<Net> {
    if '/' in s then ParseCidr(c, s)
    else ParseCidr(c, s + if ':' in s then "/128" else "/32")
  }

  /** The route with one more field set, if the key is known. */
  function ReadPair(c: AddrText, r: Route, k: string, v: string): Option<Route> {
    if k == "via" then Some(r.(gw := c.parse(v)))
    else if k == "dev" then Some(r.(iface := v))
    else if k == "src" then Some(r.(src := c.parse(v)))
    else if k == "proto" then Some(r.(proto := Str2Proto(v)))
    else if k == "metric" then
      var n := ParseUint(v, 0x1_0000_0000_0000_0000);
      Some(r.(metric := if n.Some? then n.value else 0))
    else if k == "scope" then Some(r.(scope := Str2Scope(v)))
    else if k == "uid" then Some(r)
    else None
  }

  /** Seven words are keys; one of them is read and ignored, and a value that is no number, or no
      address, leaves its field empty. */
  lemma KeysKnown(c: AddrText, r: Route, k: string, v: string)
    ensures ReadPair(c, r, k, v).Some? <==> k in ["via", "dev", "src", "proto", "metric", "scope", "uid"]
    ensures ReadPair(c, r, "uid", v) == Some(r)
    ensures ReadPair(c, r, "metric", v)
         == Some(r.(metric := if v != "" && AllDigits(v) && Value(v) < 0x1_0000_0000_0000_0000 then Value(v) else 0))
    ensures ReadPair(c, r, "via", v) == Some(r.(gw := c.parse(v)))
    ensures ReadPair(c, r, "src", v) == Some(r.(src := c.parse(v)))
  {
    hide Value, AllDigits, Str2Proto, Str2Scope;
    var via, dev, src, proto, metric, scope, uid := "via", "dev", "src", "proto", "metric", "scope", "uid";
    assert |via| == 3 && |dev| == 3 && |src| == 3 && |proto| == 5 && |metric| == 6 && |scope| == 5 && |uid| == 3;
    assert via[0] == 'v' && dev[0] == 'd' && src[0] == 's' && uid[0] == 'u' && proto[0] == 'p' && scope[0] == 's';
  }

  /** Pairs are read one after the other; a word that is no key is passed over. */
  function ReadWords(c: AddrText, r: Route, words: seq<string>): Route
    decreases |words|
  {
    if words == [] then r
    else
      var next := if |words| > 1 then ReadPair(c, r, words[0], words[1]) else None;
      if next.Some? then ReadWords(c, next.value, words[2..]) else ReadWords(c, r, words[1..])
  }

  function Parse(c: AddrText, line: string, onlyDefault: bool): Option<Route> {
    if line == "" || line == "cache" then None
    else if onlyDefault && !("default via" <= line) then None
    else
      var words := Split(line, ' ');
      if |words| < 7 then None
      else
        var dest := if words[0] != "default" then NetFromCidr(c, words[0]) else None;
        Some(ReadWords(c, BLANK.(dest := dest), words[1..]))
  }

  /** Reads a line word by word. */
  method ParseRoute(c: AddrText, line: string, onlyDefault: bool) returns (rt: Option<Route>)
    ensures rt == Parse(c, line, onlyDefault)
  {
    hide Split, ReadPair, NetFromCidr;
    if line == "" || line == "cache" {
      return None;
    }
    if onlyDefault && !("default via" <= line) {
      return None;
    }
    var elements := Split(line, ' ');
    if |elements| < 7 {
      return None;
    }
    var route := BLANK;
    if elements[0] != "default" {
      var dest := NetFromCidr(c, elements[0]);
      if dest.Some? {
        route := route.(dest := dest);
      }
    }
    elements := elements[1..];
    while |elements| > 0
      invariant Parse(c, line, onlyDefault) == Some(ReadWords(c, route, elements))
      decreases |elements|
    {
      var success := None;
      if |elements| > 1 {
        success := ReadPair(c, route, elements[0], elements[1]);
      }
      if success.Some? {
        route := success.value;
        elements := elements[2..];
      } else {
        elements := elements[1..];
      }
    }
    return Some(route);
  }

  /** The fields of a text: a space, the key, a space and the value for each. */
  function Shown(fields: seq<(string, string)>): string
    decreases |fields|
  {
    if fields == [] then "" else " " + fields[0].0 + " " + fields[0].1 + Shown(fields[1..])
  }

  lemma JoinFirst(w: string, words: seq<string>)
    requires words != []
    ensures Join([w] + words, ' ') == w + " " + Join(words, ' ')
  {
    assert ([w] + words)[1..] == words;
  }

  lemma Regroup(d: string, k: string, v: string, rest: string)
    ensures d + " " + (k + " " + (v + rest)) == d + (" " + k + " " + v + rest)
  {
  }

  lemma {:induction false} JoinShown(d: string, fields: seq<(string, string)>)
    ensures Join([d] + Flat(fields), ' ') == d + Shown(fields)
    decreases |fields|
  {
    if fields == [] {
      assert [d] + Flat(fields) == [d];
    } else {
      hide Join;
      var k, v, rest := fields[0].0, fields[0].1, fields[1..];
      var words := [v] + Flat(rest);
      assert [d] + Flat(fields) == [d] + ([k] + words);
      JoinFirst(d, [k] + words);
      JoinFirst(k, words);
      JoinShown(v, rest);
      Regroup(d, k, v, Shown(rest));
    }
  }

  /** A key between spaces. */
  function Key(k: string): string { " " + k + " " }

  lemma FieldShown(desc: string, shown: bool, k: string, v: string, rest: seq<(string, string)>)
    ensures desc + Shown(Field(shown, k, v) + rest) == (if shown then desc + (Key(k) + v) else desc) + Shown(rest)
  {
    if shown {
      assert ([(k, v)] + rest)[1..] == rest;
    } else {
      assert Field(shown, k, v) + rest == rest;
    }
  }

  method DestToString(c: AddrText, d: Option<Net>) returns (desc: string)
    ensures desc == DestText(c, d)
  {
    if d.None? {
      desc := "default";
    } else {
      var ones, totalBits := d.value.ones, Width(d.value.ip);
      if ones == totalBits {
        desc := c.format(d.value.ip);
      } else {
        desc := c.format(d.value.ip) + "/" + Format(ones);
      }
    }
  }

  /** Renders the route, field by field. */
  method ToString(c: AddrText, r: Route) returns (desc: string)
    ensures desc == Text(c, r)
  {
    hide Format, Proto2Str, Scope2Str, Join, Flat, Shown, DestText, Field, Key;
    desc := DestToString(c, r.dest);
    ghost var text := Text(c, r);
    JoinShown(desc, Fields(c, r));
    ghost var f6 := Field(r.metric != 0, "metric", Format(r.metric)) + [];
    ghost var f5 := Field(r.src.Some?, "src", AddrOr(c, r.src)) + f6;
    ghost var f4 := Field(r.scope > 0, "scope", Scope2Str(r.scope)) + f5;
    ghost var f3 := Field(r.proto > 0, "proto", Proto2Str(r.proto)) + f4;
    ghost var f2 := Field(r.iface != "", "dev", r.iface) + f3;
    FieldShown(desc, r.gw.Some?, "via", AddrOr(c, r.gw), f2);
    if r.gw.Some? {
      desc := desc + (Key("via") + c.format(r.gw.value));
    }
    assert desc + Shown(f2) == text;
    FieldShown(desc, r.iface != "", "dev", r.iface, f3);
    if |r.iface| > 0 {
      desc := desc + (Key("dev") + r.iface);
    }
    assert desc + Shown(f3) == text;
    FieldShown(desc, r.proto > 0, "proto", Proto2Str(r.proto), f4);
    if r.proto > 0 {
      desc := desc + (Key("proto") + Proto2Str(r.proto));
    }
    assert desc + Shown(f4) == text;
    FieldShown(desc, r.scope > 0, "scope", Scope2Str(r.scope), f5);
    if r.scope > 0 {
      desc := desc + (Key("scope") + Scope2Str(r.scope));
    }
    assert desc + Shown(f5) == text;
    FieldShown(desc, r.src.Some?, "src", AddrOr(c, r.src), f6);
    if r.src.Some? {
      desc := desc + (Key("src") + c.format(r.src.value));
    }
    assert desc + Shown(f6) == text;
    FieldShown(desc, r.metric != 0, "metric", Format(r.metric), []);
    if r.metric != 0 {
      desc := desc + (Key("metric") + Format(r.metric));
    }
    assert desc + Shown([]) == text;
    assert desc + Shown([]) == desc by { ShownNone(); }
  }

  lemma ShownNone()
    ensures Shown([]) == ""
  {
  }

  lemma ShownMore(shown: bool, k: string, v: string, rest: seq<(string, string)>)
    ensures Shown(Field(shown, k, v) + rest) == (if shown then " " + k + " " + v else "") + Shown(rest)
  {
    if shown {
      assert ([(k, v)] + rest)[1..] == rest;
    } else {
      assert Field(shown, k, v) + rest == rest;
    }
  }

  /** The text of a route, as `ip route` prints it. */
  lemma TextShows(c: AddrText, r: Route)
    ensures Text(c, r) == (match r.dest
                           case None => "default"
                           case Some(n) =>
                             if n.ones == (if n.ip.V4? then 32 else 128) then c.format(n.ip)
                             else c.format(n.ip) + "/" + Format(n.ones))
                          + ((if r.gw.Some? then " " + "via" + " " + c.format(r.gw.value) else "")
                          + ((if r.iface != "" then " " + "dev" + " " + r.iface else "")
                          + ((if r.proto > 0 then " " + "proto" + " " + Proto2Str(r.proto) else "")
                          + ((if r.scope > 0 then " " + "scope" + " " + Scope2Str(r.scope) else "")
                          + ((if r.src.Some? then " " + "src" + " " + c.format(r.src.value) else "")
                          + ((if r.metric != 0 then " " + "metric" + " " + Format(r.metric) else "")
                          + ""))))))
  {
    hide Format, Proto2Str, Scope2Str, Join, Flat, Shown, Field;
    JoinShown(DestText(c, r.dest), Fields(c, r));
    ghost var f6 := Field(r.metric != 0, "metric", Format(r.metric)) + [];
    ghost var f5 := Field(r.src.Some?, "src", AddrOr(c, r.src)) + f6;
    ghost var f4 := Field(r.scope > 0, "scope", Scope2Str(r.scope)) + f5;
    ghost var f3 := Field(r.proto > 0, "proto", Proto2Str(r.proto)) + f4;
    ghost var f2 := Field(r.iface != "", "dev", r.iface) + f3;
    ShownMore(r.gw.Some?, "via", AddrOr(c, r.gw), f2);
    ShownMore(r.iface != "", "dev", r.iface, f3);
    ShownMore(r.proto > 0, "proto", Proto2Str(r.proto), f4);
    ShownMore(r.scope > 0, "scope", Scope2Str(r.scope), f5);
    ShownMore(r.src.Some?, "src", AddrOr(c, r.src), f6);
    ShownMore(r.metric != 0, "metric", Format(r.metric), []);
    ShownNone();
  }

  // ---------------------------------------------------------------- round trip

  lemma {:induction false} IndexAfter(t: string, sep: char, rest: string)
    requires sep !in t
    ensures IndexOf(t + [sep] + rest, sep) == |t|
  {
    var s := t + [sep] + rest;
    assert s[|t|] == sep;
    assert forall j | 0 <= j < |t| :: s[j] == t[j] && t[j] in t;
  }

  lemma CidrRoundTrip(c: AddrText, n: Net)
    requires GoodText(c, n.ip) && n.ones <= Width(n.ip)
    ensures ParseCidr(c, c.format(n.ip) + "/" + Format(n.ones)) == Some(n)
  {
    hide Format, ParseUint;
    var t, m := c.format(n.ip), Format(n.ones);
    IndexAfter(t, '/', m);
    assert (t + "/" + m)[..|t|] == t && (t + "/" + m)[|t| + 1..] == m;
    ParseFormatted(n.ones, Width(n.ip) + 1);
  }

  lemma WidthText(a: Addr)
    ensures "/" + Format(Width(a)) == if a.V6? then "/128" else "/32"
  {
    assert Format(3) == "3" && Format(1) == "1";
    assert Format(32) == Format(3) + "2" == "32";
    assert Format(12) == Format(1) + "2" == "12";
    assert Format(128) == Format(12) + "8" == "128";
  }

  predicate Fits(d: Option<Net>) { d.Some? ==> d.value.ones <= Width(d.value.ip) }

  lemma AddrTextOf(c: AddrText, a: Addr)
    requires GoodText(c, a)
    ensures var t := c.format(a); t != "" && '/' !in t && ' ' !in t
  {
  }

  lemma NetRoundTrip(c: AddrText, n: Net)
    requires GoodText(c, n.ip) && n.ones <= Width(n.ip)
    ensures NetFromCidr(c, DestText(c, Some(n))) == Some(n)
  {
    hide Format, ParseCidr, AddrChars;
    var t, m := c.format(n.ip), "/" + Format(n.ones);
    CidrRoundTrip(c, n);
    assert t + m == t + "/" + Format(n.ones);
    AddrTextOf(c, n.ip);
    if n.ones == Width(n.ip) {
      WidthText(n.ip);
    } else {
      assert (t + "/" + Format(n.ones))[|t|] == '/';
    }
  }

  lemma DestIsAWord(c: AddrText, n: Net)
    requires GoodText(c, n.ip)
    ensures ' ' !in DestText(c, Some(n)) && DestText(c, Some(n)) != "default"
  {
    hide Format;
    var t := c.format(n.ip);
    assert "default"[4] == 'u' && 'u' in "default" && 'u' !in t;
    if n.ones != Width(n.ip) {
      assert (t + "/" + Format(n.ones))[|t|] == '/' && '/' !in "default";
    }
  }

  /** Destinations are read back as they were: the default, a lone address or a prefix. */
  lemma DestRoundTrip(c: AddrText, d: Option<Net>)
    requires Faithful(c) && Fits(d)
    ensures var t := DestText(c, d);
            ' ' !in t && (if t == "default" then None else NetFromCidr(c, t)) == d
  {
    hide DestText, NetFromCidr;
    match d {
      case None => DefaultText(c);
      case Some(n) =>
        assert GoodText(c, n.ip);
        NetRoundTrip(c, n);
        DestIsAWord(c, n);
    }
  }

  lemma DefaultText(c: AddrText)
    ensures DestText(c, None) == "default"
  {
  }

  lemma ReadField(c: AddrText, r: Route, shown: bool, k: string, v: string, rest: seq<(string, string)>)
    requires ReadPair(c, r, k, v).Some?
    ensures ReadWords(c, r, Flat(Field(shown, k, v) + rest))
         == ReadWords(c, if shown then ReadPair(c, r, k, v).value else r, Flat(rest))
  {
    hide ReadPair;
    if shown {
      assert ([(k, v)] + rest)[1..] == rest;
      assert ([k, v] + Flat(rest))[2..] == Flat(rest);
    } else {
      assert Field(shown, k, v) + rest == rest;
    }
  }

  /** Reading the words of a route gives it back, but for a protocol below 0. */
  lemma WordsRoundTrip(c: AddrText, r: Route)
    requires Faithful(c)
    ensures ReadWords(c, BLANK.(dest := r.dest), Flat(Fields(c, r))) == r.(proto := if r.proto > 0 then r.proto else 0)
  {
    hide Format, ParseUint, Str2Scope, Str2Proto, Scope2Str, Proto2Str, Flat, Field, ReadWords;
    var f6 := Field(r.metric != 0, "metric", Format(r.metric)) + [];
    var f5 := Field(r.src.Some?, "src", AddrOr(c, r.src)) + f6;
    var f4 := Field(r.scope > 0, "scope", Scope2Str(r.scope)) + f5;
    var f3 := Field(r.proto > 0, "proto", Proto2Str(r.proto)) + f4;
    var f2 := Field(r.iface != "", "dev", r.iface) + f3;
    assert r.gw.Some? ==> GoodText(c, r.gw.value);
    assert r.src.Some? ==> GoodText(c, r.src.value);
    ProtoRoundTrip(r.proto);
    ScopeRoundTrip(r.scope);
    ParseFormatted(r.metric, 0x1_0000_0000_0000_0000);
    var a := BLANK.(dest := r.dest);
    ReadField(c, a, r.gw.Some?, "via", AddrOr(c, r.gw), f2);
    a := a.(gw := r.gw);
    ReadField(c, a, r.iface != "", "dev", r.iface, f3);
    a := a.(iface := r.iface);
    ReadField(c, a, r.proto > 0, "proto", Proto2Str(r.proto), f4);
    a := a.(proto := if r.proto > 0 then r.proto else 0);
    ReadField(c, a, r.scope > 0, "scope", Scope2Str(r.scope), f5);
    a := a.(scope := r.scope);
    ReadField(c, a, r.src.Some?, "src", AddrOr(c, r.src), f6);
    a := a.(src := r.src);
    ReadField(c, a, r.metric != 0, "metric", Format(r.metric), []);
    a := a.(metric := r.metric);
    ReadNone(c, a);
  }

  lemma ReadNone(c: AddrText, r: Route)
    ensures ReadWords(c, r, Flat([])) == r
  {
  }

  /** How many of its fields a route has set. */
  function FieldsSet(r: Route): nat {
    (if r.gw.Some? then 1 else 0) + (if r.iface != "" then 1 else 0) + (if r.proto > 0 then 1 else 0)
    + (if r.scope > 0 then 1 else 0) + (if r.src.Some? then 1 else 0) + if r.metric != 0 then 1 else 0
  }

  predicate Solid(fields: seq<(string, string)>) {
    forall f <- fields :: ' ' !in f.0 && ' ' !in f.1
  }

  lemma FieldSolid(shown: bool, k: string, v: string, rest: seq<(string, string)>)
    requires Solid(rest) && ' ' !in k && (shown ==> ' ' !in v)
    ensures Solid(Field(shown, k, v) + rest)
    ensures |Field(shown, k, v) + rest| == |rest| + if shown then 1 else 0
  {
  }

  /** Every word of a route is a word, if the interface is one. */
  lemma FieldsSolid(c: AddrText, r: Route)
    requires Faithful(c) && ' ' !in r.iface
    ensures Solid(Fields(c, r)) && |Fields(c, r)| == FieldsSet(r)
  {
    hide Format, Proto2Str, Scope2Str, Field, Solid, GoodText;
    var f6 := Field(r.metric != 0, "metric", Format(r.metric)) + [];
    var f5 := Field(r.src.Some?, "src", AddrOr(c, r.src)) + f6;
    var f4 := Field(r.scope > 0, "scope", Scope2Str(r.scope)) + f5;
    var f3 := Field(r.proto > 0, "proto", Proto2Str(r.proto)) + f4;
    var f2 := Field(r.iface != "", "dev", r.iface) + f3;
    AddrIsAWord(c, r.gw);
    AddrIsAWord(c, r.src);
    ProtoRoundTrip(r.proto);
    ScopeRoundTrip(r.scope);
    SolidNone();
    FieldSolid(r.metric != 0, "metric", Format(r.metric), []);
    FieldSolid(r.src.Some?, "src", AddrOr(c, r.src), f6);
    FieldSolid(r.scope > 0, "scope", Scope2Str(r.scope), f5);
    FieldSolid(r.proto > 0, "proto", Proto2Str(r.proto), f4);
    FieldSolid(r.iface != "", "dev", r.iface, f3);
    FieldSolid(r.gw.Some?, "via", AddrOr(c, r.gw), f2);
  }

  lemma SolidNone()
    ensures Solid([])
  {
  }

  lemma AddrIsAWord(c: AddrText, a: Option<Addr>)
    requires Faithful(c)
    ensures ' ' !in AddrOr(c, a)
  {
    if a.Some? {
      assert GoodText(c, a.value);
    }
  }

  lemma {:induction false} FlatSolid(fields: seq<(string, string)>)
    requires Solid(fields)
    ensures |Flat(fields)| == 2 * |fields| && forall w <- Flat(fields) :: ' ' !in w
    decreases |fields|
  {
    if fields == [] {
    } else {
      assert fields[0] in fields;
      FlatSolid(fields[1..]);
    }
  }

  /** The words of a line are those printed, if the interface is a word. */
  lemma SplitText(c: AddrText, r: Route)
    requires Faithful(c) && Fits(r.dest) && ' ' !in r.iface
    ensures Split(Text(c, r), ' ') == Words(c, r) && |Words(c, r)| == 1 + 2 * FieldsSet(r)
  {
    hide Fields, DestText, Flat, Split, Join, Solid;
    FieldsSolid(c, r);
    FlatSolid(Fields(c, r));
    DestRoundTrip(c, r.dest);
    SplitJoined(Words(c, r), ' ');
  }

  lemma CacheIsOneWord()
    ensures Split("cache", ' ') == ["cache"] && Split("", ' ') == [""]
  {
    SplitFirst("cache", ' ', "");
  }

  /** What parsing makes of a printed route whose interface is a word. */
  lemma ParsePrinted(c: AddrText, r: Route)
    requires Faithful(c) && Fits(r.dest) && ' ' !in r.iface
    ensures Parse(c, Text(c, r), false)
         == if FieldsSet(r) < 3 then None else Some(r.(proto := if r.proto > 0 then r.proto else 0))
  {
    hide Text, Fields, DestText, Flat, Split, Join, ReadWords, NetFromCidr;
    SplitText(c, r);
    CacheIsOneWord();
    DestRoundTrip(c, r.dest);
    WordsRoundTrip(c, r);
    assert Words(c, r)[1..] == Flat(Fields(c, r));
  }

  lemma {:induction false} JoinOfSplit(line: string, sep: char)
    ensures Join(Split(line, sep), sep) == line
  {
    if line == "" {
    } else {
      JoinOfSplit(line[1..], sep);
      var words := Split(line[1..], sep);
      if line[0] == sep {
        assert ([""] + words)[1..] == words;
        assert "" + [sep] + Join(words, sep) == [line[0]] + line[1..] == line;
      } else {
        JoinHead(line[0], words, sep);
        assert [line[0]] + line[1..] == line;
      }
    }
  }

  lemma JoinHead(x: char, words: seq<string>, sep: char)
    requires words != []
    ensures Join([[x] + words[0]] + words[1..], sep) == [x] + Join(words, sep)
  {
    var more := [[x] + words[0]] + words[1..];
    assert more[1..] == words[1..];
  }

  lemma {:induction false} JoinBefore(before: seq<string>, a: seq<string>, b: seq<string>)
    requires a != [] && b != [] && Join(a, ' ') == Join(b, ' ')
    ensures Join(before + a, ' ') == Join(before + b, ' ')
    decreases |before|
  {
    if before == [] {
      assert before + a == a && before + b == b;
    } else {
      JoinBefore(before[1..], a, b);
      assert before + a == [before[0]] + (before[1..] + a);
      assert before + b == [before[0]] + (before[1..] + b);
      JoinFirst(before[0], before[1..] + a);
      JoinFirst(before[0], before[1..] + b);
    }
  }

  lemma {:induction false} JoinNested(words: seq<string>, after: seq<string>)
    requires words != []
    ensures Join([Join(words, ' ')] + after, ' ') == Join(words + after, ' ')
    decreases |words|
  {
    if |words| == 1 {
      assert [Join(words, ' ')] + after == words + after;
    } else {
      var w, rest := words[0], words[1..];
      JoinNested(rest, after);
      assert words == [w] + rest && words + after == [w] + (rest + after);
      JoinFirst(w, rest);
      JoinFirst(w, rest + after);
      if after == [] {
        assert [Join(words, ' ')] + after == [Join(words, ' ')];
        assert rest + after == rest;
      } else {
        JoinFirst(Join(words, ' '), after);
        JoinFirst(Join(rest, ' '), after);
        assert w + " " + Join(rest, ' ') + " " + Join(after, ' ')
            == w + " " + (Join(rest, ' ') + " " + Join(after, ' '));
      }
    }
  }

  /** The fields shown after the interface. */
  function LaterFields(c: AddrText, r: Route): seq<(string, string)> {
    Field(r.proto > 0, "proto", Proto2Str(r.proto))
    + (Field(r.scope > 0, "scope", Scope2Str(r.scope))
       + (Field(r.src.Some?, "src", AddrOr(c, r.src))
          + (Field(r.metric != 0, "metric", Format(r.metric)) + [])))
  }

  /** The words of a printed route whose interface name is several. */
  function SplitWords(c: AddrText, r: Route): seq<string> {
    ([DestText(c, r.dest)] + Flat(Field(r.gw.Some?, "via", AddrOr(c, r.gw))) + ["dev"])
    + (Split(r.iface, ' ') + Flat(LaterFields(c, r)))
  }

  lemma {:induction false} FlatSplit(a: seq<(string, string)>, b: seq<(string, string)>)
    ensures Flat(a + b) == Flat(a) + Flat(b)
    decreases |a|
  {
    if a == [] {
      assert a + b == b;
    } else {
      assert (a + b)[1..] == a[1..] + b;
      FlatSplit(a[1..], b);
    }
  }

  lemma FlatOne(k: string, v: string)
    ensures Flat([(k, v)]) == [k, v]
  {
    assert [(k, v)][1..] == [];
  }

  lemma WordsAround(c: AddrText, r: Route)
    requires r.iface != ""
    ensures Words(c, r) == ([DestText(c, r.dest)] + Flat(Field(r.gw.Some?, "via", AddrOr(c, r.gw))) + ["dev"])
                           + ([r.iface] + Flat(LaterFields(c, r)))
  {
    hide Flat, Format, Proto2Str, Scope2Str, DestText;
    var gw, later := Field(r.gw.Some?, "via", AddrOr(c, r.gw)), LaterFields(c, r);
    assert Fields(c, r) == gw + ([("dev", r.iface)] + later);
    FlatSplit(gw, [("dev", r.iface)] + later);
    FlatSplit([("dev", r.iface)], later);
    FlatOne("dev", r.iface);
  }

  lemma LaterSolid(c: AddrText, r: Route)
    requires Faithful(c)
    ensures Solid(LaterFields(c, r)) && Solid(Field(r.gw.Some?, "via", AddrOr(c, r.gw)))
    ensures FieldsSet(r) == |LaterFields(c, r)| + (if r.gw.Some? then 1 else 0) + if r.iface != "" then 1 else 0
  {
    hide Format, Proto2Str, Scope2Str, Field, Solid, GoodText;
    var f6 := Field(r.metric != 0, "metric", Format(r.metric)) + [];
    var f5 := Field(r.src.Some?, "src", AddrOr(c, r.src)) + f6;
    var f4 := Field(r.scope > 0, "scope", Scope2Str(r.scope)) + f5;
    AddrIsAWord(c, r.gw);
    AddrIsAWord(c, r.src);
    ProtoRoundTrip(r.proto);
    ScopeRoundTrip(r.scope);
    SolidNone();
    FieldSolid(r.metric != 0, "metric", Format(r.metric), []);
    FieldSolid(r.src.Some?, "src", AddrOr(c, r.src), f6);
    FieldSolid(r.scope > 0, "scope", Scope2Str(r.scope), f5);
    FieldSolid(r.proto > 0, "proto", Proto2Str(r.proto), f4);
    FieldSolid(r.gw.Some?, "via", AddrOr(c, r.gw), []);
    assert Field(r.gw.Some?, "via", AddrOr(c, r.gw)) + [] == Field(r.gw.Some?, "via", AddrOr(c, r.gw));
  }

  lemma SplitTextAny(c: AddrText, r: Route)
    requires Faithful(c) && Fits(r.dest) && r.iface != ""
    ensures Split(Text(c, r), ' ') == SplitWords(c, r)
    ensures |SplitWords(c, r)| == 2 * FieldsSet(r) + |Split(r.iface, ' ')|
  {
    hide Fields, LaterFields, DestText, Flat, Split, Join, Solid, Field, FieldsSet;
    var gw, later, ps := Field(r.gw.Some?, "via", AddrOr(c, r.gw)), LaterFields(c, r), Split(r.iface, ' ');
    LaterSolid(c, r);
    FlatSolid(later);
    FlatSolid(gw);
    DestRoundTrip(c, r.dest);
    WordsAround(c, r);
    JoinOfSplit(r.iface, ' ');
    JoinNested(ps, Flat(later));
    var before := [DestText(c, r.dest)] + Flat(gw) + ["dev"];
    JoinBefore(before, [r.iface] + Flat(later), ps + Flat(later));
    SplitJoined(SplitWords(c, r), ' ');
    GwLength(c, r);
  }

  lemma GwLength(c: AddrText, r: Route)
    ensures |Field(r.gw.Some?, "via", AddrOr(c, r.gw))| == if r.gw.Some? then 1 else 0
  {
  }

  /** What parsing makes of any printed route with an interface: its name ends at the first
      space, and what follows in it is read as further keys and values. */
  lemma ParsePrintedAny(c: AddrText, r: Route)
    requires Faithful(c) && Fits(r.dest) && r.iface != ""
    ensures var ps := Split(r.iface, ' ');
            Parse(c, Text(c, r), false)
            == if 2 * FieldsSet(r) + |ps| < 7 then None
               else Some(ReadWords(c, BLANK.(dest := r.dest, gw := r.gw, iface := ps[0]),
                                   ps[1..] + Flat(LaterFields(c, r))))
  {
    hide Text, LaterFields, DestText, Flat, Split, Join, ReadWords, NetFromCidr, FieldsSet, Field;
    var ps, later := Split(r.iface, ' '), LaterFields(c, r);
    SplitTextAny(c, r);
    CacheIsOneWord();
    DestRoundTrip(c, r.dest);
    var words := SplitWords(c, r);
    var gw := Field(r.gw.Some?, "via", AddrOr(c, r.gw));
    assert words[0] == DestText(c, r.dest);
    assert words[1..] == Flat(gw) + (["dev", ps[0]] + (ps[1..] + Flat(later)));
    ReadGwDev(c, BLANK.(dest := r.dest), r, ps[0], ps[1..] + Flat(later));
  }

  lemma ReadGwDev(c: AddrText, a: Route, r: Route, name: string, rest: seq<string>)
    requires Faithful(c) && a.gw == None
    ensures ReadWords(c, a, Flat(Field(r.gw.Some?, "via", AddrOr(c, r.gw))) + (["dev", name] + rest))
         == ReadWords(c, a.(gw := r.gw, iface := name), rest)
  {
    hide ReadWords, Flat;
    var b := a.(gw := r.gw);
    ReadTwo(c, b, "dev", name, rest);
    if r.gw.Some? {
      assert GoodText(c, r.gw.value);
      FlatOne("via", c.format(r.gw.value));
      ReadTwo(c, a, "via", c.format(r.gw.value), ["dev", name] + rest);
    } else {
      FlatNone();
      assert [] + (["dev", name] + rest) == ["dev", name] + rest;
    }
  }

  lemma FlatNone()
    ensures Flat([]) == []
  {
  }

  lemma ReadTwo(c: AddrText, r: Route, k: string, v: string, rest: seq<string>)
    requires ReadPair(c, r, k, v).Some?
    ensures ReadWords(c, r, [k, v] + rest) == ReadWords(c, ReadPair(c, r, k, v).value, rest)
  {
    hide ReadPair;
    assert ([k, v] + rest)[2..] == rest;
  }

  lemma {:induction false} IfaceIsAWord(c: AddrText, r: Route, words: seq<string>)
    requires ' ' !in r.iface && forall w <- words :: ' ' !in w
    ensures ' ' !in ReadWords(c, r, words).iface
    decreases |words|
  {
    hide Str2Proto, Str2Scope, ParseUint;
    if words == [] {
    } else {
      var next := if |words| > 1 then ReadPair(c, r, words[0], words[1]) else None;
      if next.Some? {
        IfaceIsAWord(c, next.value, words[2..]);
      } else {
        IfaceIsAWord(c, r, words[1..]);
      }
    }
  }

  lemma ParsedIfaceIsAWord(c: AddrText, line: string, onlyDefault: bool)
    ensures var p := Parse(c, line, onlyDefault); p.Some? ==> ' ' !in p.value.iface
  {
    hide Split, ReadWords, NetFromCidr;
    var words := Split(line, ' ');
    if |words| >= 7 {
      var dest := if words[0] != "default" then NetFromCidr(c, words[0]) else None;
      IfaceIsAWord(c, BLANK.(dest := dest), words[1..]);
    }
  }

  /** A route printed and parsed is the same again exactly when at least three of its fields
      are set, its protocol is not below 0, and the name of its interface has no space. */
  lemma RoundTripIff(c: AddrText, r: Route)
    requires Faithful(c) && Fits(r.dest)
    ensures Parse(c, Text(c, r), false) == Some(r) <==> (FieldsSet(r) >= 3 && r.proto >= 0 && ' ' !in r.iface)
  {
    hide Text, Parse, FieldsSet;
    if ' ' in r.iface {
      ParsedIfaceIsAWord(c, Text(c, r), false);
    } else {
      ParsePrinted(c, r);
    }
  }

  /** The key that comes first; only a gateway's starts with a v. */
  lemma FirstKey(c: AddrText, r: Route)
    ensures var f := Fields(c, r);
            && (f == [] ==> r.gw.None?)
            && (f != [] ==> f[0].0 != "" && (f[0].0[0] == 'v' <==> r.gw.Some?) && (r.gw.Some? ==> f[0].0 == "via"))
  {
    hide Format, Proto2Str, Scope2Str;
    var g1 := Field(r.metric != 0, "metric", Format(r.metric)) + [];
    var g2 := Field(r.src.Some?, "src", AddrOr(c, r.src)) + g1;
    var g3 := Field(r.scope > 0, "scope", Scope2Str(r.scope)) + g2;
    var g4 := Field(r.proto > 0, "proto", Proto2Str(r.proto)) + g3;
    var g5 := Field(r.iface != "", "dev", r.iface) + g4;
    assert g1 != [] ==> g1[0].0 == "metric";
    assert g2 != [] ==> g2[0].0 in ["src", "metric"];
    assert g3 != [] ==> g3[0].0 in ["scope", "src", "metric"];
    assert g4 != [] ==> g4[0].0 in ["proto", "scope", "src", "metric"];
    assert g5 != [] ==> g5[0].0 in ["dev", "proto", "scope", "src", "metric"];
  }

  lemma ShownStart(fields: seq<(string, string)>)
    requires fields != [] && fields[0].0 != ""
    ensures |Shown(fields)| > 1 && Shown(fields)[0] == ' ' && Shown(fields)[1] == fields[0].0[0]
  {
  }

  lemma ShownAfter(d: string, fields: seq<(string, string)>)
    requires fields != [] ==> fields[0].0 != ""
    requires d == "default" && "default via" <= d + Shown(fields)
    ensures fields != [] && fields[0].0[0] == 'v'
  {
    hide Shown;
    assert (d + Shown(fields))[8] == "default via"[8] == 'v';
    if fields == [] {
      assert Shown([]) == "" by { ShownNone(); }
    } else {
      ShownStart(fields);
      assert (d + Shown(fields))[8] == Shown(fields)[1];
    }
  }

  /** No text that starts with an address starts like a default route. */
  lemma AddressIsNoDefault(t: string, rest: string)
    requires t != "" && AddrChars(t) && (rest == "" || rest[0] == '/' || rest[0] == ' ')
    ensures !("default via" <= t + rest)
  {
    var d := "default via";
    assert d[0] == 'd' && d[1] == 'e' && d[2] == 'f' && d[3] == 'a' && d[4] == 'u';
    var i := if |t| > 4 then 4 else |t|;
    if i < |t + rest| {
      if i == |t| {
        assert (t + rest)[i] == rest[0];
      } else {
        assert t[4] in t;
      }
      assert (t + rest)[i] != d[i];
    }
  }

  lemma StartsDefaultVia(c: AddrText, r: Route)
    requires Faithful(c)
    requires "default via" <= Text(c, r)
    ensures r.dest.None? && r.gw.Some?
  {
    hide Fields, Shown, Flat, Join, Format;
    var d, fields := DestText(c, r.dest), Fields(c, r);
    JoinShown(d, fields);
    FirstKey(c, r);
    if r.dest.None? {
      ShownAfter(d, fields);
    } else {
      var n := r.dest.value;
      assert GoodText(c, n.ip);
      var rest := if n.ones == Width(n.ip) then Shown(fields) else "/" + (Format(n.ones) + Shown(fields));
      assert d + Shown(fields) == c.format(n.ip) + rest;
      if fields == [] {
        ShownNone();
      } else {
        ShownStart(fields);
      }
      AddressIsNoDefault(c.format(n.ip), rest);
    }
  }

  lemma FlatStart(fields: seq<(string, string)>)
    requires fields != []
    ensures |Flat(fields)| > 1 && Flat(fields)[0] == fields[0].0
  {
  }

  lemma DefaultViaStarts(c: AddrText, r: Route)
    requires r.dest.None? && r.gw.Some?
    ensures "default via" <= Text(c, r)
  {
    hide Fields, DestText, FieldsSet, Flat, Join;
    FirstKey(c, r);
    DefaultText(c);
    var words := Flat(Fields(c, r));
    FlatStart(Fields(c, r));
    JoinFirst("default", words);
    assert words == ["via"] + words[1..];
    JoinFirst("via", words[1..]);
    assert "default" + " " + ("via" + " " + Join(words[1..], ' '))
        == "default via" + (" " + Join(words[1..], ' '));
  }

  /** Asking for default routes only leaves out all but the default routes with a gateway. */
  lemma OnlyDefaultPrinted(c: AddrText, r: Route)
    requires Faithful(c)
    ensures Parse(c, Text(c, r), true)
         == if r.dest.None? && r.gw.Some? then Parse(c, Text(c, r), false) else None
  {
    hide Text, Split, ReadWords, NetFromCidr;
    if r.dest.None? && r.gw.Some? {
      DefaultViaStarts(c, r);
    } else if "default via" <= Text(c, r) {
      StartsDefaultVia(c, r);
    }
  }
}
