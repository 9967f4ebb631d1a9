/**
 Encoded hash strings $argon2<T>[$v=<num>]$m=<num>,t=<num>,p=<num>$<bin>$<bin>: their grammar, and the proof that no
 text can be read in two ways (external/argon2/encoding.c:253-272).
 */
module EncodedStrings {
  import opened Words
  import opened Layout
  import opened Buffers
  import opened Contexts
  import opened Base64
  import opened Decimals

  // ----- Text -----

  function Str(s: string): (t: seq<Char>)
    ensures |t| == |s|
  {
    seq(|s|, i requires 0 <= i < |s| => if s[i] as int < 256 then s[i] as int else 0)
  }

  function TypeText(kind: Kind): seq<Char> {
    match kind
    case Argon2d => Str("argon2d")
    case Argon2i => Str("argon2i")
    case Argon2id => Str("argon2id")
  }

  datatype Version = Implicit | Explicit(number: u32)

  /** What stands in a string: the numbers, and the characters of the two binary fields. */
  datatype Pieces = Pieces(version: Version, mCost: u32, tCost: u32, lanes: u32, salt: seq<Char>, out: seq<Char>)

  function BinsText(salt: seq<Char>, out: seq<Char>, rest: seq<Char>): seq<Char> {
    Str("$") + (salt + (Str("$") + (out + rest)))
  }

  function CostsText(m: nat, t: nat, p: nat, rest: seq<Char>): seq<Char> {
    Str("$m=") + (Decimal(m) + (Str(",t=") + (Decimal(t) + (Str(",p=") + (Decimal(p) + rest)))))
  }

  function VersionText(version: Version, rest: seq<Char>): seq<Char> {
    match version
    case Implicit => rest
    case Explicit(number) => Str("$v=") + (Decimal(number) + rest)
  }

  function HeadText(kind: Kind, version: Version, rest: seq<Char>): seq<Char> {
    Str("$") + (TypeText(kind) + VersionText(version, rest))
  }

  function Text(kind: Kind, pc: Pieces): seq<Char> {
    HeadText(kind, pc.version, CostsText(pc.mCost, pc.tCost, pc.lanes, BinsText(pc.salt, pc.out, [])))
  }

  ghost predicate AllTaken(a: Alphabet, s: seq<Char>) {
    forall i :: 0 <= i < |s| ==> Taken(a, s[i])
  }

  predicate StartsTaken(a: Alphabet, s: seq<Char>) {
    s != [] && Taken(a, s[0])
  }

  /** The alphabet does not contain the separator. */
  ghost predicate Separated(a: Alphabet) {
    ValidAlphabet(a) && forall c :: c == '$' as int ==> !Taken(a, c)
  }

  /** The string has these pieces. */
  ghost predicate HasPieces(a: Alphabet, kind: Kind, str: seq<Char>, pc: Pieces) {
    str == Text(kind, pc) && AllTaken(a, pc.salt) && AllTaken(a, pc.out)
  }

  // ----- Reading is unambiguous -----

  lemma PeelText(x: seq<Char>, s: seq<Char>, t: seq<Char>)
    requires x + s == x + t
    ensures s == t
  {
    assert s == (x + s)[|x|..] && t == (x + t)[|x|..];
  }

  lemma PeelTaken(a: Alphabet, x: seq<Char>, s: seq<Char>, y: seq<Char>, t: seq<Char>)
    requires x + s == y + t && AllTaken(a, x) && AllTaken(a, y) && !StartsTaken(a, s) && !StartsTaken(a, t)
    ensures x == y && s == t
  {
    PeelRun((c: Char) => Taken(a, c), x, s, y, t);
  }

  lemma PeelBins(a: Alphabet, s: seq<Char>, o: seq<Char>, rest: seq<Char>, s': seq<Char>, o': seq<Char>,
                 rest': seq<Char>)
    requires Separated(a) && BinsText(s, o, rest) == BinsText(s', o', rest')
    requires AllTaken(a, s) && AllTaken(a, o) && !StartsTaken(a, rest)
    requires AllTaken(a, s') && AllTaken(a, o') && !StartsTaken(a, rest')
    ensures s == s' && o == o' && rest == rest'
  {
    PeelText(Str("$"), s + (Str("$") + (o + rest)), s' + (Str("$") + (o' + rest')));
    PeelTaken(a, s, Str("$") + (o + rest), s', Str("$") + (o' + rest'));
    PeelText(Str("$"), o + rest, o' + rest');
    PeelTaken(a, o, rest, o', rest');
  }

  lemma PeelNumber(name: seq<Char>, m: nat, s: seq<Char>, n: nat, t: seq<Char>)
    requires name + (Decimal(m) + s) == name + (Decimal(n) + t) && !StartsWithDigit(s) && !StartsWithDigit(t)
    ensures m == n && s == t
  {
    PeelText(name, Decimal(m) + s, Decimal(n) + t);
    PeelDecimal(m, s, n, t);
  }

  lemma PeelCosts(m: nat, t: nat, p: nat, rest: seq<Char>, m': nat, t': nat, p': nat, rest': seq<Char>)
    requires CostsText(m, t, p, rest) == CostsText(m', t', p', rest') && !StartsWithDigit(rest)
             && !StartsWithDigit(rest')
    ensures m == m' && t == t' && p == p' && rest == rest'
  {
    var afterT, afterT' := Str(",p=") + (Decimal(p) + rest), Str(",p=") + (Decimal(p') + rest');
    var afterM, afterM' := Str(",t=") + (Decimal(t) + afterT), Str(",t=") + (Decimal(t') + afterT');
    PeelNumber(Str("$m="), m, afterM, m', afterM');
    PeelNumber(Str(",t="), t, afterT, t', afterT');
    PeelNumber(Str(",p="), p, rest, p', rest');
  }

  /** What may follow the version: the memory cost. */
  predicate StartsCosts(rest: seq<Char>) {
    Str("$m=") <= rest
  }

  /** The version text has been read as far as it goes. */
  predicate Greedy(v: Version, rest: seq<Char>) {
    match v
    case Implicit => !(Str("$v=") <= rest)
    case Explicit(_) => !StartsWithDigit(rest)
  }

  lemma CostsAreNoVersion(v: Version, rest: seq<Char>)
    requires StartsCosts(rest)
    ensures Greedy(v, rest)
  {
    assert rest[1] == Str("$m=")[1] == 'm' as int && rest[0] == Str("$m=")[0];
    assert Str("$v=")[1] == 'v' as int;
  }

  lemma PeelVersion(v: Version, rest: seq<Char>, v': Version, rest': seq<Char>)
    requires VersionText(v, rest) == VersionText(v', rest') && Greedy(v, rest) && Greedy(v', rest')
    ensures v == v' && rest == rest'
  {
    if v.Explicit? && v'.Explicit? {
      PeelNumber(Str("$v="), v.number, rest, v'.number, rest');
    }
  }

  lemma PeelHeadOfKind(kind: Kind, v: Version, rest: seq<Char>, v': Version, rest': seq<Char>)
    requires HeadText(kind, v, rest) == HeadText(kind, v', rest') && Greedy(v, rest) && Greedy(v', rest')
    ensures v == v' && rest == rest'
  {
    PeelText(Str("$"), TypeText(kind) + VersionText(v, rest), TypeText(kind) + VersionText(v', rest'));
    PeelText(TypeText(kind), VersionText(v, rest), VersionText(v', rest'));
    PeelVersion(v, rest, v', rest');
  }

  lemma PeelHead(kind: Kind, v: Version, rest: seq<Char>, kind': Kind, v': Version, rest': seq<Char>)
    requires HeadText(kind, v, rest) == HeadText(kind', v', rest') && StartsCosts(rest) && StartsCosts(rest')
    ensures kind == kind' && v == v' && rest == rest'
  {
    PeelText(Str("$"), TypeText(kind) + VersionText(v, rest), TypeText(kind') + VersionText(v', rest'));
    VersionStarts(v, rest);
    VersionStarts(v', rest');
    PeelRun((c: Char) => c != '$' as int, TypeText(kind), VersionText(v, rest),
            TypeText(kind'), VersionText(v', rest'));
    TypesDiffer(kind, kind');
    CostsAreNoVersion(v, rest);
    CostsAreNoVersion(v', rest');
    PeelVersion(v, rest, v', rest');
  }

  lemma VersionStarts(v: Version, rest: seq<Char>)
    requires StartsCosts(rest)
    ensures Str("$") <= VersionText(v, rest)
  {
  }

  lemma TypesDiffer(kind: Kind, kind': Kind)
    requires TypeText(kind) == TypeText(kind')
    ensures kind == kind'
  {
    assert |TypeText(Argon2d)| == |TypeText(Argon2i)| == 7 && |TypeText(Argon2id)| == 8;
    assert TypeText(Argon2d)[6] == 'd' as int && TypeText(Argon2i)[6] == 'i' as int;
  }

  /** A string has at most one type and one list of pieces. */
  lemma Unambiguous(a: Alphabet, str: seq<Char>, kind: Kind, pc: Pieces, kind': Kind, pc': Pieces)
    requires Separated(a) && HasPieces(a, kind, str, pc) && HasPieces(a, kind', str, pc')
    ensures kind == kind' && pc == pc'
  {
    var bins, bins' := BinsText(pc.salt, pc.out, []), BinsText(pc'.salt, pc'.out, []);
    PeelHead(kind, pc.version, CostsText(pc.mCost, pc.tCost, pc.lanes, bins),
             kind', pc'.version, CostsText(pc'.mCost, pc'.tCost, pc'.lanes, bins'));
    PeelCosts(pc.mCost, pc.tCost, pc.lanes, bins, pc'.mCost, pc'.tCost, pc'.lanes, bins');
    PeelBins(a, pc.salt, pc.out, [], pc'.salt, pc'.out, []);
  }
}
