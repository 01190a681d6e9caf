/**
 * The pure part of `addStudent`: how the next id is derived from the listed
 * students (`parseInt(id) || 0`, the maximum, plus one, `toString`), which
 * object is posted, and how a failure of the listing call propagates.
 * The HTTP calls themselves are inputs: their settled outcomes are
 * parameters.
 */
module StudentApi {
  import opened Text
  import opened Remote

  // ---------------------------------------------------------------------
  // parseInt without a radix argument

  /** The value of `c` as a digit in any radix up to 36 ('0'-'9', then
      'a'-'z' and 'A'-'Z' for 10-35); 36 for a character that is no digit. */
  function DigitValue(c: char): (d: nat)
    ensures d <= 36
  {
    if '0' <= c <= '9' then c as nat - '0' as nat
    else if 'a' <= c <= 'z' then c as nat - 'a' as nat + 10
    else if 'A' <= c <= 'Z' then c as nat - 'A' as nat + 10
    else 36
  }

  predicate IsRadixDigit(c: char, radix: nat) {
    DigitValue(c) < radix
  }

  /** Length of the longest prefix of `s` made of digits of `radix`. */
  function DigitRun(s: string, radix: nat): (n: nat)
    ensures n <= |s|
  {
    if s == [] || !IsRadixDigit(s[0], radix) then 0 else 1 + DigitRun(s[1..], radix)
  }

  /** The run really is the longest such prefix: every character before
      its end is a digit of the radix, and the one at its end is not. */
  lemma {:induction false} DigitRunLongest(s: string, radix: nat)
    ensures forall i | 0 <= i < DigitRun(s, radix) :: IsRadixDigit(s[i], radix)
    ensures DigitRun(s, radix) < |s| ==> !IsRadixDigit(s[DigitRun(s, radix)], radix)
  {
    if s != [] && IsRadixDigit(s[0], radix) {
      DigitRunLongest(s[1..], radix);
      forall i | 0 <= i < DigitRun(s, radix) ensures IsRadixDigit(s[i], radix) {
        if i > 0 { assert s[i] == s[1..][i - 1]; }
      }
    }
  }

  /** The number the digits of `s` denote in `radix`, most significant first. */
  function ValueOf(s: string, radix: nat): (v: nat) {
    if s == [] then 0
    else ValueOf(s[..|s| - 1], radix) * radix + DigitValue(s[|s| - 1])
  }

  predicate HexPrefixed(u: string) {
    |u| >= 2 && u[0] == '0' && (u[1] == 'x' || u[1] == 'X')
  }

  /** The unsigned part of parseInt: a "0x"/"0X" prefix selects radix 16
      (otherwise 10), then the longest run of digits of that radix is read;
      no digit at all is NaN (None). */
  function ParseUnsigned(u: string): (r: Option<nat>)
    ensures r.None? <==>
              if HexPrefixed(u) then |u| == 2 || DigitValue(u[2]) >= 16
              else u == [] || !IsDigit(u[0])
  {
    var radix := if HexPrefixed(u) then 16 else 10;
    var w := if HexPrefixed(u) then u[2..] else u;
    var n := DigitRun(w, radix);
    if n == 0 then None else Some(ValueOf(w[..n], radix))
  }

  /** `parseInt(s)`, with None for NaN: leading whitespace is skipped and
      one '+' or '-' is taken before the unsigned part. */
  function ParseInt(s: string): (r: Option<int>)
    ensures AllSpace(s) ==> r.None?
    ensures r.Some? ==> LeadingSpaces(s) < |s|
    ensures r.Some? && r.value < 0 ==> s[LeadingSpaces(s)] == '-'
  {
    var t := s[LeadingSpaces(s)..];
    LeadingSpacesRun(s);
    var u := if |t| > 0 && (t[0] == '-' || t[0] == '+') then t[1..] else t;
    match ParseUnsigned(u)
    case None => None
    case Some(v) => Some(Signed(|t| > 0 && t[0] == '-', v))
  }

  function Signed(negative: bool, v: nat): (i: int) {
    if negative then -(v as int) else v
  }

  /** With no whitespace in front, parseInt is the unsigned reading of what
      follows an optional '+' or '-', negated for '-'. */
  lemma ParseIntSigned(sign: string, u: string)
    requires sign == "" || sign == "-" || sign == "+"
    requires u != [] && !IsSpace(u[0]) && u[0] != '-' && u[0] != '+'
    ensures ParseInt(sign + u) ==
            match ParseUnsigned(u)
            case None => None
            case Some(v) => Some(Signed(sign == "-", v))
  {
    var s := sign + u;
    assert s[0] == (if sign == "" then u[0] else sign[0]);
    assert LeadingSpaces(s) == 0;
    assert s[0..] == s;
    if sign == "" {
      assert s == u;
    } else {
      assert s[1..] == u;
    }
  }

  /** A run of radix digits followed by something that is not one is read
      up to its end. */
  lemma {:induction false} DigitRunStops(a: string, rest: string, radix: nat)
    requires forall i | 0 <= i < |a| :: IsRadixDigit(a[i], radix)
    requires rest == [] || !IsRadixDigit(rest[0], radix)
    ensures DigitRun(a + rest, radix) == |a|
  {
    if a != [] {
      assert (a + rest)[1..] == a[1..] + rest;
      DigitRunStops(a[1..], rest, radix);
    } else {
      assert a + rest == rest;
    }
  }

  // ---------------------------------------------------------------------
  // Number.prototype.toString for integers

  function DigitChar(d: nat): (c: char)
    requires d < 10
    ensures IsDigit(c) && DigitValue(c) == d
  {
    ('0' as int + d) as char
  }

  /** The decimal numeral of `n`, without leading zeros. */
  function NatToString(n: nat): (r: string)
    ensures |r| > 0
    ensures forall c | c in r :: IsDigit(c)
    decreases n
  {
    if n < 10 then [DigitChar(n)] else NatToString(n / 10) + [DigitChar(n % 10)]
  }

  /** `i.toString()`: a '-' in front of the numeral of a negative number. */
  function IntToString(i: int): (r: string)
    ensures |r| > 0
    ensures r[0] == '-' <==> i < 0
  {
    if i < 0 then "-" + NatToString(-i)
    else
      assert NatToString(i)[0] in NatToString(i);
      NatToString(i)
  }

  /** The numeral of `n` is a nonempty string of decimal digits denoting
      `n`, and it starts with '0' only when it is "0". */
  lemma {:induction false} NatToStringDigits(n: nat)
    ensures |NatToString(n)| > 0
    ensures forall i | 0 <= i < |NatToString(n)| :: IsDigit(NatToString(n)[i])
    ensures ValueOf(NatToString(n), 10) == n
    ensures NatToString(n)[0] == '0' <==> n == 0
  {
    if n >= 10 {
      NatToStringDigits(n / 10);
      var s := NatToString(n);
      assert s[..|s| - 1] == NatToString(n / 10);
    }
  }

  /** The unsigned reader takes a whole numeral up to the first character
      that cannot continue it. */
  lemma ParseUnsignedOfNumeral(m: nat, rest: string)
    requires rest == [] || !IsDigit(rest[0])
    requires m == 0 ==> rest == [] || (rest[0] != 'x' && rest[0] != 'X')
    ensures ParseUnsigned(NatToString(m) + rest) == Some(m)
  {
    var a := NatToString(m);
    NatToStringDigits(m);
    assert forall i | 0 <= i < |a| :: IsRadixDigit(a[i], 10);
    DigitRunStops(a, rest, 10);
    assert (a + rest)[..|a|] == a;
    assert !HexPrefixed(a + rest) by {
      if |a| >= 2 {
        assert (a + rest)[1] == a[1];
      }
    }
  }

  /** parseInt reads back what toString writes, and stops at the first
      character that cannot continue the numeral (the one exception being
      an 'x' or 'X' after a lone "0", which makes a hexadecimal prefix). */
  lemma ParseIntOfNumeral(i: int, rest: string)
    requires rest == [] || !IsDigit(rest[0])
    requires i == 0 ==> rest == [] || (rest[0] != 'x' && rest[0] != 'X')
    ensures ParseInt(IntToString(i) + rest) == Some(i)
  {
    var m: nat := if i < 0 then -i else i;
    var u := NatToString(m) + rest;
    SignedNumeral(i, rest);
    ParseUnsignedOfNumeral(m, rest);
    assert u[0] == NatToString(m)[0] && NatToString(m)[0] in NatToString(m);
    ParseIntSigned(if i < 0 then "-" else "", u);
  }

  /** `String(i) + rest` is an optional '-', the numeral of |i|, then rest. */
  lemma SignedNumeral(i: int, rest: string)
    ensures IntToString(i) + rest ==
            (if i < 0 then "-" else "") + (NatToString(if i < 0 then -i else i) + rest)
  {
  }

  /** The round trip of ids: `parseInt(String(i)) === i`. */
  lemma ParseIntToString(i: int)
    ensures ParseInt(IntToString(i)) == Some(i)
  {
    ParseIntOfNumeral(i, []);
    assert IntToString(i) + [] == IntToString(i);
  }

  /** Leading whitespace does not change what parseInt reads. */
  lemma ParseIntSkipsSpaces(ws: string, s: string)
    requires AllSpace(ws)
    ensures ParseInt(ws + s) == ParseInt(s)
  {
    LeadingSpacesPrefix(ws, s);
    assert (ws + s)[|ws| + LeadingSpaces(s)..] == s[LeadingSpaces(s)..];
  }

  lemma {:induction false} LeadingSpacesPrefix(ws: string, s: string)
    requires AllSpace(ws)
    ensures LeadingSpaces(ws + s) == |ws| + LeadingSpaces(s)
  {
    if ws != [] {
      assert (ws + s)[0] == ws[0];
      assert (ws + s)[1..] == ws[1..] + s;
      LeadingSpacesPrefix(ws[1..], s);
    } else {
      assert ws + s == s;
    }
  }

  /** Trailing characters that are no digit are ignored. */
  lemma ParseIntExampleTrailing()
    ensures ParseInt("12ab") == Some(12)
  {
    assert IntToString(12) == "12";
    ParseIntOfNumeral(12, "ab");
    assert "12" + "ab" == "12ab";
  }

  /** Leading space and a minus sign are taken. */
  lemma ParseIntExampleSpaceSign()
    ensures ParseInt(" -7") == Some(-7)
  {
    assert IntToString(-7) == "-7";
    ParseIntToString(-7);
    ParseIntSkipsSpaces(" ", "-7");
    assert " " + "-7" == " -7";
  }

  /** "0x" switches to hexadecimal. */
  lemma ParseIntExampleHex()
    ensures ParseInt("0x1A") == Some(26)
  {
    var w := "0x1A"[2..];
    assert w == "1A";
    assert DigitRun(w, 16) == 2;
    assert HexPrefixed("0x1A");
    assert w[..2] == w && w[..1] == "1" && "1"[..0] == "";
    assert ValueOf("1", 16) == 1;
    assert ValueOf(w, 16) == 26;
    assert ParseUnsigned("0x1A") == Some(26);
    ParseIntSigned("", "0x1A");
    assert "" + "0x1A" == "0x1A";
  }

  /** No digit at all is NaN. */
  lemma ParseIntExampleNaN()
    ensures ParseInt("abc") == None
    ensures ParseInt("") == None
  {
    assert DigitRun("abc", 10) == 0;
    ParseIntSigned("", "abc");
    assert "" + "abc" == "abc";
  }

  // ---------------------------------------------------------------------
  // The next id

  /** `parseInt(student.id) || 0`: NaN, and an absent id (parseInt of
      undefined), count as 0. */
  function IdValue(o: Obj): (v: int)
    ensures "id" in o && ParseInt(o["id"]).Some? ==> v == ParseInt(o["id"]).value
    ensures "id" !in o || ParseInt(o["id"]).None? ==> v == 0
  {
    if "id" in o then
      match ParseInt(o["id"])
      case Some(v) => v
      case None => 0
    else 0
  }

  function Max(a: int, b: int): (m: int) {
    if a < b then b else a
  }

  /** `Math.max(...ids)` over a nonempty list. */
  function MaxIdOf(l: seq<Obj>): (m: int)
    requires |l| > 0
    ensures forall o | o in l :: IdValue(o) <= m
  {
    if |l| == 1 then IdValue(l[0])
    else
      assert forall o | o in l :: o in l[..|l| - 1] || o == l[|l| - 1];
      Max(MaxIdOf(l[..|l| - 1]), IdValue(l[|l| - 1]))
  }

  /** `maxId`: the largest id value, or 0 for an empty list. */
  function MaxId(l: seq<Obj>): (m: int)
    ensures forall o | o in l :: IdValue(o) <= m
    ensures l == [] ==> m == 0
  {
    if |l| > 0 then MaxIdOf(l) else 0
  }

  /** `(maxId + 1).toString()`, which reads back as maxId + 1. */
  function NextId(l: seq<Obj>): (id: string)
    ensures ParseInt(id) == Some(MaxId(l) + 1)
  {
    ParseIntToString(MaxId(l) + 1);
    IntToString(MaxId(l) + 1)
  }

  /** The maximum is one of the id values. */
  lemma {:induction false} MaxIdOfIsMaximum(l: seq<Obj>)
    requires |l| > 0
    ensures exists o | o in l :: MaxIdOf(l) == IdValue(o)
  {
    if |l| > 1 {
      var p := l[..|l| - 1];
      MaxIdOfIsMaximum(p);
      var o :| o in p && MaxIdOf(p) == IdValue(o);
      assert o in l;
    } else {
      assert l[0] in l;
    }
  }

  /** What the generated id means: it parses to a number greater than every
      id value in the list; for an empty list it is 1, otherwise it is one
      more than some id value of the list (so nothing keeps it positive). */
  lemma NextIdMeaning(l: seq<Obj>)
    ensures ParseInt(NextId(l)).Some?
    ensures var m := ParseInt(NextId(l)).value;
            (forall o | o in l :: IdValue(o) < m) &&
            (|l| == 0 ==> m == 1) &&
            (|l| > 0 ==> exists o | o in l :: m == IdValue(o) + 1)
  {
    ParseIntToString(MaxId(l) + 1);
    if |l| > 0 {
      MaxIdOfIsMaximum(l);
    }
  }

  lemma NextIdOfEmpty()
    ensures NextId([]) == "1"
  {
  }

  /** The generated id depends only on which records are listed, not on
      their order. */
  lemma NextIdPermutation(l1: seq<Obj>, l2: seq<Obj>)
    requires multiset(l1) == multiset(l2)
    ensures NextId(l1) == NextId(l2)
  {
    MaxIdPermutation(l1, l2);
  }

  lemma MaxIdPermutation(l1: seq<Obj>, l2: seq<Obj>)
    requires multiset(l1) == multiset(l2)
    ensures MaxId(l1) == MaxId(l2)
  {
    assert |l1| == |l2| by {
      assert |multiset(l1)| == |l1| && |multiset(l2)| == |l2|;
    }
    if |l1| > 0 {
      MaxIdOfIsMaximum(l1);
      MaxIdOfIsMaximum(l2);
      var o1 :| o1 in l1 && MaxIdOf(l1) == IdValue(o1);
      var o2 :| o2 in l2 && MaxIdOf(l2) == IdValue(o2);
      assert o1 in multiset(l2);
      assert o2 in multiset(l1);
    }
  }

  /** Ids 3 and 7 give "8". */
  lemma NextIdExampleTwo()
    ensures NextId([map["id" := "3"], map["id" := "7"]]) == "8"
  {
    var a, b := map["id" := "3"], map["id" := "7"];
    var l := [a, b];
    assert IdValue(a) == 3 by {
      assert IntToString(3) == "3";
      ParseIntToString(3);
    }
    assert IdValue(b) == 7 by {
      assert IntToString(7) == "7";
      ParseIntToString(7);
    }
    assert l[..1] == [a];
    assert MaxIdOf(l) == Max(MaxIdOf([a]), IdValue(b));
    assert IntToString(8) == "8";
  }

  /** A lone -5 gives "-4": nothing floors the id at zero. */
  lemma NextIdExampleNegative()
    ensures NextId([map["id" := "-5"]]) == "-4"
  {
    assert MaxId([map["id" := "-5"]]) == -5 by {
      assert IntToString(-5) == "-5";
      ParseIntToString(-5);
    }
    assert IntToString(-4) == "-4";
  }

  /** Only a non-numeric id and a missing one give "1". */
  lemma NextIdExampleNonNumeric()
    ensures NextId([map["id" := "abc"], map["name" := "Al"]]) == "1"
  {
    var l := [map["id" := "abc"], map["name" := "Al"]];
    assert MaxId(l) == 0 by {
      ParseIntExampleNaN();
      assert l[..1] == [map["id" := "abc"]];
    }
    assert IntToString(1) == "1";
  }

  // ---------------------------------------------------------------------
  // The POST body and the call itself

  /** The four fields copied from `studentData`. */
  const StudentFields: set<string> := {"name", "email", "course", "phone"}

  /** The object posted: the generated id under "id", the four student
      fields copied unchanged, and nothing else (a field absent from
      `studentData` is undefined and is not serialised). */
  function Payload(id: string, data: Obj): (p: Obj)
    ensures p.Keys == {"id"} + (data.Keys * StudentFields)
    ensures p["id"] == id
    ensures forall k | k in data && k in StudentFields :: p[k] == data[k]
  {
    (map k | k in data && k in StudentFields :: data[k])["id" := id]
  }

  /** With all four fields present there are exactly five keys. */
  lemma PayloadComplete(id: string, data: Obj)
    requires StudentFields <= data.Keys
    ensures Payload(id, data).Keys == {"id", "name", "email", "course", "phone"}
  {
  }

  /** Extra input fields, including an "id" of the caller's, are dropped. */
  lemma PayloadIgnoresExtras(id: string, d1: Obj, d2: Obj)
    requires forall k | k in StudentFields :: Get(d1, k) == Get(d2, k)
    ensures Payload(id, d1) == Payload(id, d2)
  {
    var p1, p2 := Payload(id, d1), Payload(id, d2);
    assert p1.Keys == p2.Keys by {
      assert forall k | k in StudentFields :: (k in d1 <==> k in d2) by {
        forall k | k in StudentFields ensures k in d1 <==> k in d2 {
          assert Get(d1, k) == Get(d2, k);
        }
      }
    }
    forall k | k in p1 ensures p1[k] == p2[k] {
      if k != "id" {
        assert Get(d1, k) == Get(d2, k);
      }
    }
  }

  /** What one `addStudent` call did: the body it posted, if it got that
      far, and how its promise settled. */
  datatype AddResult = AddResult(posted: Option<Obj>, result: Outcome<Obj>)

  /** `addStudent(studentData)`, given how `getStudents()` settled and how
      the POST would settle. A list that could not be fetched is rethrown
      and nothing is posted; a null list makes `.length` throw a TypeError,
      which has no response; otherwise the payload with the next id is
      posted and the call settles as the POST does. */
  function AddStudent(data: Obj, listed: Outcome<Option<seq<Obj>>>, post: Outcome<Obj>): (r: AddResult)
    ensures r.posted.Some? <==> listed.Ok? && listed.value.Some?
    ensures listed.Failed? ==> r.result == Failed(listed.status)
    ensures listed == Ok(None) ==> r.result == Failed(None)
    ensures r.posted.Some? ==> r.result == post
    ensures listed.Ok? && listed.value.Some? ==>
              r.posted == Some(Payload(NextId(listed.value.value), data))
  {
    match listed
    case Failed(status) => AddResult(None, Failed(status))
    case Ok(None) => AddResult(None, Failed(None))
    case Ok(Some(l)) => AddResult(Some(Payload(NextId(l), data)), post)
  }

  /** When a body is posted, its id is the numeral of one more than the
      largest listed id value, so it is fresh with respect to the listed
      records, and everything else in it is the caller's data. */
  lemma AddStudentPostsFreshId(data: Obj, l: seq<Obj>, post: Outcome<Obj>)
    ensures var r := AddStudent(data, Ok(Some(l)), post);
            r.posted.Some? &&
            "id" in r.posted.value &&
            r.posted.value["id"] == IntToString(MaxId(l) + 1) &&
            ParseInt(r.posted.value["id"]) == Some(MaxId(l) + 1) &&
            (forall o | o in l :: IdValue(o) < ParseInt(r.posted.value["id"]).value) &&
            r.posted.value.Keys == {"id"} + (data.Keys * StudentFields) &&
            (forall k | k in data && k in StudentFields :: r.posted.value[k] == data[k])
  {
    NextIdMeaning(l);
  }
}
