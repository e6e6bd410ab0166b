/** `display_sort` of the Z3 example (benchmarks/z3cpp/test_capi.c), and a parser that takes its output back. */
module DisplaySort {
  import opened Wire
  import opened Decimal

  type uint32 = x: nat | x < TWO_32

  datatype Symbol = Numbered(n: int32) | Named(name: string)

  /** Z3 sorts by kind. `Datatype` is one whose number of constructors is not one, with the text that
      `Z3_sort_to_string` gives for it; `Other` is any kind the printer does not know. */
  datatype Sort =
    | Bool
    | Int
    | Real
    | BitVec(size: uint32)
    | Array(domain: Sort, range: Sort)
    | Tuple(fields: seq<Sort>)
    | Uninterpreted(name: Symbol)
    | Datatype(text: string)
    | Other(name: Symbol)

  /** Built from Booleans, numbers, bit-vectors, arrays and tuples alone. */
  predicate Built(ty: Sort) {
    match ty
    case Array(domain, range) => Built(domain) && Built(range)
    case Tuple(fields) => forall i :: 0 <= i < |fields| ==> Built(fields[i])
    case Uninterpreted(_) => false
    case Datatype(_) => false
    case Other(_) => false
    case _ => true
  }

  function ShowSymbol(s: Symbol): string {
    match s
    case Numbered(n) => "#" + Signed(n)
    case Named(name) => name
  }

  /** The text of a sort. The size of a bit-vector is unsigned, but printed as if it were not. */
  function Show(ty: Sort): string {
    match ty
    case Bool => "bool"
    case Int => "int"
    case Real => "real"
    case BitVec(size) => "bv" + Signed(ToInt32(size))
    case Array(domain, range) => "[" + Show(domain) + "->" + Show(range) + "]"
    case Tuple(fields) => "(" + ShowFields(fields) + ")"
    case Uninterpreted(name) => ShowSymbol(name)
    case Datatype(text) => text
    case Other(name) => "unknown[" + ShowSymbol(name) + "]"
  }

  function ShowFields(fields: seq<Sort>): string {
    if fields == [] then ""
    else if |fields| == 1 then Show(fields[0])
    else Show(fields[0]) + ", " + ShowFields(fields[1..])
  }

  lemma {:induction false} SignedExamples()
    ensures Signed(-1) == "-1" && Signed(-3) == "-3" && Signed(32) == "32"
  {
    assert Natural(3) == "3" && Natural(32) == Natural(3) + [Digit(2)];
  }

  /** Texts of sorts of each kind. */
  lemma {:induction false} ShowExamples()
    ensures Show(Array(Int, Real)) == "[int->real]"
    ensures Show(BitVec(TWO_32 - 1)) == "bv-1" && Show(BitVec(32)) == "bv32"
    ensures Show(Other(Numbered(-3))) == "unknown[#-3]" && Show(Uninterpreted(Named("T"))) == "T"
  {
    SignedExamples();
    hide Signed, ShowFields;
  }

  lemma {:induction false} ShowTuples()
    ensures Show(Tuple([Bool, Int])) == "(bool, int)" && Show(Tuple([Int])) == "(int)" && Show(Tuple([])) == "()"
  {
    hide Signed, ShowSymbol;
    assert ShowFields([]) == "" && [Bool, Int][1..] == [Int] && ShowFields([Int]) == "int";
  }

  // ---- The printer -----------------------------------------------------------------------------------------

  class Stream {
    var text: string

    constructor ()
      ensures text == ""
    {
      text := "";
    }

    method Print(s: string)
      modifies this
      ensures text == old(text) + s
    {
      text := text + s;
    }
  }

  lemma {:induction false} ShowFieldsSnoc(fields: seq<Sort>, i: nat)
    requires i < |fields|
    ensures ShowFields(fields[..i + 1])
            == ShowFields(fields[..i]) + (if i > 0 then ", " else "") + Show(fields[i])
  {
    hide Show;
    if i > 0 {
      ShowFieldsSnoc(fields[1..], i - 1);
      assert fields[..i + 1][1..] == fields[1..][..i] && fields[..i][1..] == fields[1..][..i - 1];
      if i == 1 {
        assert fields[..1] == [fields[0]] && fields[1..][..0] == [];
      }
    } else {
      assert fields[..1] == [fields[0]];
    }
  }

  method Display(out: Stream, ty: Sort)
    modifies out
    ensures out.text == old(out.text) + Show(ty)
    decreases ty, 1
  {
    hide ShowFields, ShowSymbol, Signed;
    match ty {
      case Uninterpreted(name) => out.Print(ShowSymbol(name));
      case Bool => out.Print("bool");
      case Int => out.Print("int");
      case Real => out.Print("real");
      case BitVec(size) => out.Print("bv" + Signed(ToInt32(size)));
      case Array(domain, range) => DisplayArray(out, domain, range);
      case Datatype(text) => out.Print(text);
      case Tuple(fields) => DisplayTuple(out, fields);
      case Other(name) =>
        ghost var was := out.text;
        out.Print("unknown[");
        out.Print(ShowSymbol(name));
        out.Print("]");
        Regroup(was, "unknown[", ShowSymbol(name));
        Regroup(was, "unknown[" + ShowSymbol(name), "]");
    }
  }

  method DisplayArray(out: Stream, domain: Sort, range: Sort)
    modifies out
    ensures out.text == old(out.text) + ("[" + Show(domain) + "->" + Show(range) + "]")
    decreases Array(domain, range), 0
  {
    hide Show;
    ghost var was := out.text;
    out.Print("[");
    Display(out, domain);
    Regroup(was, "[", Show(domain));
    out.Print("->");
    Regroup(was, "[" + Show(domain), "->");
    Display(out, range);
    Regroup(was, "[" + Show(domain) + "->", Show(range));
    out.Print("]");
    Regroup(was, "[" + Show(domain) + "->" + Show(range), "]");
  }

  method DisplayTuple(out: Stream, fields: seq<Sort>)
    modifies out
    ensures out.text == old(out.text) + ("(" + ShowFields(fields) + ")")
    decreases Tuple(fields), 0
  {
    NoFields();
    hide ShowFields, Show;
    out.Print("(");
    ghost var was := out.text;
    assert fields[..0] == [];
    for i := 0 to |fields|
      invariant out.text == was + ShowFields(fields[..i])
    {
      if i > 0 {
        out.Print(", ");
      }
      Display(out, fields[i]);
      ShowFieldsSnoc(fields, i);
    }
    assert fields[..|fields|] == fields;
    out.Print(")");
  }

  lemma NoFields()
    ensures ShowFields([]) == ""
  {
  }

  // ---- A parser --------------------------------------------------------------------------------------------

  type Parsed<+T> = Option<(T, string)>

  /** Take `word` off the front of `t`. */
  function Skip(t: string, word: string): (r: Option<string>)
    ensures r.Some? ==> t == word + r.value && |r.value| == |t| - |word|
  {
    if word <= t then Some(t[|word|..]) else None
  }

  function ParseWord(t: string, word: string, ty: Sort): (r: Parsed<Sort>)
    ensures r.Some? ==> |r.value.1| == |t| - |word|
  {
    match Skip(t, word)
    case Some(rest) => Some((ty, rest))
    case None => None
  }

  /** Go from the printed size back to the unsigned one. */
  function SizeOf(n: int32): (size: uint32)
    ensures ToInt32(size) == n
  {
    if n < 0 then n + TWO_32 else n
  }

  function ParseBits(t: string): (r: Parsed<Sort>)
    ensures r.Some? ==> |r.value.1| < |t|
  {
    match Skip(t, "bv")
    case None => None
    case Some(rest) =>
      var (n, k) := ReadSigned(rest);
      if k > 0 && -TWO_31 <= n < TWO_31 then Some((BitVec(SizeOf(n)), rest[k..])) else None
  }

  function ParseSort(t: string): (r: Parsed<Sort>)
    ensures r.Some? ==> |r.value.1| < |t|
    decreases |t|, 1
  {
    if t == "" then None
    else if t[0] == 'i' then ParseWord(t, "int", Int)
    else if t[0] == 'r' then ParseWord(t, "real", Real)
    else if t[0] == '[' then ParseArray(t[1..])
    else if t[0] == '(' then ParseTuple(t[1..])
    else if |t| > 1 && t[1] == 'v' then ParseBits(t)
    else ParseWord(t, "bool", Bool)
  }

  /** What follows the opening bracket of an array. */
  function ParseArray(t: string): (r: Parsed<Sort>)
    ensures r.Some? ==> |r.value.1| < |t|
    decreases |t|, 2
  {
    match ParseSort(t)
    case None => None
    case Some((domain, t1)) =>
      match Skip(t1, "->")
      case None => None
      case Some(t2) =>
        match ParseSort(t2)
        case None => None
        case Some((range, t3)) =>
          match Skip(t3, "]")
          case None => None
          case Some(rest) => Some((Array(domain, range), rest))
  }

  /** What follows the opening parenthesis of a tuple. */
  function ParseTuple(t: string): (r: Parsed<Sort>)
    ensures r.Some? ==> |r.value.1| < |t|
    decreases |t|, 3
  {
    match Skip(t, ")")
    case Some(rest) => Some((Tuple([]), rest))
    case None =>
      match ParseFields(t)
      case Some((fields, rest)) => Some((Tuple(fields), rest))
      case None => None
  }

  /** The fields of a tuple that has some, and its closing parenthesis. */
  function ParseFields(t: string): (r: Parsed<seq<Sort>>)
    ensures r.Some? ==> |r.value.1| < |t| && r.value.0 != []
    decreases |t|, 2
  {
    match ParseSort(t)
    case None => None
    case Some((field, t1)) =>
      match Skip(t1, ", ")
      case Some(t2) =>
        (match ParseFields(t2)
         case None => None
         case Some((fields, rest)) => Some(([field] + fields, rest)))
      case None =>
        match Skip(t1, ")")
        case None => None
        case Some(rest) => Some(([field], rest))
  }

  predicate EndsNumber(rest: string) {
    rest == "" || !IsDigit(rest[0])
  }

  lemma SkipsWord(word: string, rest: string)
    ensures Skip(word + rest, word) == Some(rest)
  {
  }

  lemma OtherWord(word: string, t: string)
    requires word != "" && t != "" && word[0] != t[0]
    ensures Skip(t, word) == None
  {
  }

  lemma SizeRoundTrip(size: uint32)
    ensures SizeOf(ToInt32(size)) == size
  {
  }

  lemma {:induction false} ParseShowSize(size: uint32, rest: string)
    requires EndsNumber(rest)
    ensures ParseSort("bv" + Signed(ToInt32(size)) + rest) == Some((BitVec(size), rest))
  {
    var n := ToInt32(size);
    SizeRoundTrip(size);
    SignedNonEmpty(n);
    ReadsSigned(n, rest);
    hide Signed, ReadSigned, ToInt32, SizeOf, ParseSort;
    var text := Signed(n);
    Regroup("bv", text, rest);
    SkipsWord("bv", text + rest);
    assert (text + rest)[|text|..] == rest;
    hide Skip;
    assert ParseBits("bv" + (text + rest)) == Some((BitVec(size), rest));
    StartsWithBv(text + rest);
  }

  lemma {:induction false} StartsWithBv(t: string)
    ensures ParseSort("bv" + t) == ParseBits("bv" + t)
  {
    var all := "bv" + t;
    assert all[0] == 'b' && all[1] == 'v';
    hide ParseBits;
  }

  lemma SignedNonEmpty(n: int)
    ensures Signed(n) != ""
  {
  }

  /** The text that `[`, an array and some more make. */
  function ArrayTail(r: string, rest: string): string {
    "->" + (r + ("]" + rest))
  }

  lemma {:induction false} ArrayText(d: string, r: string, rest: string)
    ensures "[" + d + "->" + r + "]" + rest == "[" + (d + ArrayTail(r, rest))
  {
    Regroup("[" + d + "->" + r, "]", rest);
    Regroup("[" + d + "->", r, "]" + rest);
    Regroup("[" + d, "->", r + ("]" + rest));
    Regroup("[", d, ArrayTail(r, rest));
  }

  lemma {:induction false} ParseShowArray(domain: Sort, range: Sort, rest: string)
    requires ParseSort(Show(domain) + ArrayTail(Show(range), rest)) == Some((domain, ArrayTail(Show(range), rest)))
    requires ParseSort(Show(range) + ("]" + rest)) == Some((range, "]" + rest))
    ensures ParseSort(Show(Array(domain, range)) + rest) == Some((Array(domain, range), rest))
  {
    var d, r := Show(domain), Show(range);
    assert Show(Array(domain, range)) == "[" + d + "->" + r + "]";
    hide Show;
    ArrayText(d, r, rest);
    var t := d + ArrayTail(r, rest);
    assert ("[" + t)[1..] == t;
    SkipsWord("->", r + ("]" + rest));
    SkipsWord("]", rest);
    hide Skip;
    assert ParseArray(t) == Some((Array(domain, range), rest)) by {
      hide ParseSort;
    }
    hide ParseArray;
  }

  lemma {:induction false} ParseShowTuple(fields: seq<Sort>, rest: string)
    requires forall i :: 0 <= i < |fields| ==> Built(fields[i])
    requires fields != [] ==> ParseFields(ShowFields(fields) + (")" + rest)) == Some((fields, rest))
    ensures ParseSort(Show(Tuple(fields)) + rest) == Some((Tuple(fields), rest))
  {
    var text := ShowFields(fields);
    assert Show(Tuple(fields)) == "(" + text + ")";
    Regroup("(" + text, ")", rest);
    Regroup("(", text, ")" + rest);
    var t := text + (")" + rest);
    assert ("(" + t)[1..] == t;
    if fields == [] {
      assert t == ")" + rest;
      SkipsWord(")", rest);
    } else {
      assert text != "" && text[0] != ')' by { ShowHead(fields[0]); }
      assert t[0] != ')';
    }
    hide ParseFields, Show, ShowFields;
    assert ParseTuple(t) == Some((Tuple(fields), rest));
    hide ParseTuple;
  }

  lemma {:induction false} ShowHead(ty: Sort)
    requires Built(ty)
    ensures Show(ty) != "" && Show(ty)[0] != ')'
  {
    hide Signed, ShowFields;
  }

  lemma {:induction false} ParseLastField(field: Sort, rest: string)
    requires ParseSort(Show(field) + (")" + rest)) == Some((field, ")" + rest))
    ensures ParseFields(ShowFields([field]) + (")" + rest)) == Some(([field], rest))
  {
    assert ShowFields([field]) == Show(field);
    hide Show, ShowFields, ParseSort;
    OtherWord(", ", ")" + rest);
    SkipsWord(")", rest);
    hide Skip;
  }

  lemma {:induction false} ParseOneField(field: Sort, more: seq<Sort>, rest: string)
    requires more != []
    requires ParseFields(ShowFields(more) + (")" + rest)) == Some((more, rest))
    requires var later := ", " + (ShowFields(more) + (")" + rest));
             ParseSort(Show(field) + later) == Some((field, later))
    ensures ParseFields(ShowFields([field] + more) + (")" + rest)) == Some(([field] + more, rest))
  {
    assert ([field] + more)[1..] == more;
    assert ShowFields([field] + more) == Show(field) + ", " + ShowFields(more);
    hide Show, ShowFields, ParseSort;
    var t := ShowFields(more) + (")" + rest);
    Regroup(Show(field) + ", ", ShowFields(more), ")" + rest);
    Regroup(Show(field), ", ", t);
    SkipsWord(", ", t);
    hide Skip;
  }

  lemma {:induction false} ParseShowFields(fields: seq<Sort>, rest: string)
    requires fields != [] && forall i :: 0 <= i < |fields| ==> Built(fields[i])
    ensures ParseFields(ShowFields(fields) + (")" + rest)) == Some((fields, rest))
    decreases fields
  {
    hide Show, ShowFields, ParseSort, ParseFields;
    var field, more := fields[0], fields[1..];
    assert fields == [field] + more;
    if more == [] {
      assert fields == [field];
      ParseShow(field, ")" + rest);
      ParseLastField(field, rest);
    } else {
      ParseShowFields(more, rest);
      ParseShow(field, ", " + (ShowFields(more) + (")" + rest)));
      ParseOneField(field, more, rest);
    }
  }

  /** The parser takes back what was printed, and stops where it ends. */
  lemma {:induction false} ParseShow(ty: Sort, rest: string)
    requires Built(ty) && EndsNumber(rest)
    ensures ParseSort(Show(ty) + rest) == Some((ty, rest))
    decreases ty
  {
    hide Signed, ReadSigned, ParseBits, ParseTuple, ParseArray;
    match ty
    case Bool => SkipsWord("bool", rest);
    case Int => SkipsWord("int", rest);
    case Real => SkipsWord("real", rest);
    case BitVec(size) =>
      ParseShowSize(size, rest);
    case Array(domain, range) =>
      ParseShow(domain, ArrayTail(Show(range), rest));
      ParseShow(range, "]" + rest);
      ParseShowArray(domain, range, rest);
    case Tuple(fields) =>
      if fields != [] {
        ParseShowFields(fields, rest);
      }
      ParseShowTuple(fields, rest);
  }

  /** Whatever the parser accepts is the text of what it returns. */
  lemma {:induction false} ShowParsed(t: string)
    requires ParseSort(t).Some?
    ensures var (ty, rest) := ParseSort(t).value; Built(ty) && t == Show(ty) + rest
    decreases |t|, 1
  {
    hide Signed, ReadSigned, SizeOf, ToInt32, ParseFields, ParseArray, ParseTuple, ParseBits;
    if t[0] == '[' {
      ShowParsedArray(t[1..]);
      assert t == "[" + t[1..];
    } else if t[0] == '(' {
      ShowParsedTuple(t[1..]);
      assert t == "(" + t[1..];
    } else if t[0] != 'i' && t[0] != 'r' && |t| > 1 && t[1] == 'v' {
      ShowParsedBits(t);
    }
  }

  lemma {:induction false} ShowParsedBits(t: string)
    requires ParseBits(t).Some?
    ensures var (ty, rest) := ParseBits(t).value; Built(ty) && t == Show(ty) + rest
  {
    hide Signed, ReadSigned, ToInt32;
    var after := Skip(t, "bv").value;
    var (n, k) := ReadSigned(after);
    assert after == after[..k] + after[k..];
    Regroup("bv", after[..k], after[k..]);
  }

  lemma {:induction false} ShowParsedArray(t: string)
    requires ParseArray(t).Some?
    ensures var (ty, rest) := ParseArray(t).value; Built(ty) && "[" + t == Show(ty) + rest
    decreases |t|, 2
  {
    hide ParseSort;
    ShowParsed(t);
    var (domain, t1) := ParseSort(t).value;
    var t2 := Skip(t1, "->").value;
    ShowParsed(t2);
    var (range, t3) := ParseSort(t2).value;
    var rest := Skip(t3, "]").value;
    assert t == Show(domain) + ArrayTail(Show(range), rest);
    ArrayText(Show(domain), Show(range), rest);
  }

  lemma {:induction false} ShowParsedTuple(t: string)
    requires ParseTuple(t).Some?
    ensures var (ty, rest) := ParseTuple(t).value; Built(ty) && "(" + t == Show(ty) + rest
    decreases |t|, 3
  {
    hide ParseFields;
    if Skip(t, ")").Some? {
      NoFields();
      Regroup("(", ")", t[1..]);
      assert "(" + "" + ")" == "(" + ")";
    } else {
      ShowParsedFields(t);
      var (fields, rest) := ParseFields(t).value;
      hide ShowFields;
      Regroup("(" + ShowFields(fields), ")", rest);
      Regroup("(", ShowFields(fields), ")" + rest);
    }
  }

  lemma {:induction false} ShowParsedFields(t: string)
    requires ParseFields(t).Some?
    ensures var (fields, rest) := ParseFields(t).value;
      (forall i :: 0 <= i < |fields| ==> Built(fields[i])) && t == ShowFields(fields) + (")" + rest)
    decreases |t|, 2
  {
    hide ParseSort, Show, Built;
    ShowParsed(t);
    var (field, t1) := ParseSort(t).value;
    if Skip(t1, ", ").Some? {
      var t2 := Skip(t1, ", ").value;
      ShowParsedFields(t2);
      var (more, rest) := ParseFields(t2).value;
      assert ([field] + more)[1..] == more;
      assert ShowFields([field] + more) == Show(field) + ", " + ShowFields(more);
      hide ShowFields;
      Regroup(Show(field) + ", ", ShowFields(more), ")" + rest);
      Regroup(Show(field), ", ", t2);
    }
  }

  // ---- The theorems ----------------------------------------------------------------------------------------

  /** On these sorts the printed text determines the sort. */
  lemma {:induction false} Unambiguous(a: Sort, b: Sort)
    requires Built(a) && Built(b) && Show(a) == Show(b)
    ensures a == b
  {
    ParseShow(a, "");
    ParseShow(b, "");
    assert Show(a) + "" == Show(a) && Show(b) + "" == Show(b);
  }

  /** A sort that was declared under a name of its own prints like one of these sorts exactly when the parser
      reads that name to its end, as it does for a sort named "int". */
  lemma {:induction false} NameClash(name: Symbol)
    ensures (exists ty :: Built(ty) && Show(ty) == Show(Uninterpreted(name)))
            <==> ParseSort(ShowSymbol(name)).Some? && ParseSort(ShowSymbol(name)).value.1 == ""
  {
    hide Show, ParseSort, ShowSymbol;
    var text := ShowSymbol(name);
    assert Show(Uninterpreted(name)) == text by {
      ShowName(name);
    }
    if ParseSort(text).Some? && ParseSort(text).value.1 == "" {
      ShowParsed(text);
      var ty := ParseSort(text).value.0;
      assert Show(ty) + "" == Show(ty);
    }
    if ty :| Built(ty) && Show(ty) == text {
      ParseShow(ty, "");
      assert Show(ty) + "" == Show(ty);
    }
  }

  lemma ShowName(name: Symbol)
    ensures Show(Uninterpreted(name)) == ShowSymbol(name)
  {
  }

  lemma {:induction false} NamedInt()
    ensures Show(Uninterpreted(Named("int"))) == Show(Int)
    ensures forall n :: !exists ty :: Built(ty) && Show(ty) == Show(Uninterpreted(Numbered(n)))
  {
    forall n: int32
      ensures !exists ty :: Built(ty) && Show(ty) == Show(Uninterpreted(Numbered(n)))
    {
      NameClash(Numbered(n));
      assert ShowSymbol(Numbered(n))[0] == '#';
      hide Signed, Show, Built;
    }
  }
}
