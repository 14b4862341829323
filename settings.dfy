/** The Settings record, its defaults, and parse_settings: applying key/value pairs
    from a settings file to the defaults, in file order. Floating-point text is read
    by an uninterpreted Atof; the rest (string comparison, truncation to long, the
    key dispatch, the fatal unknown key) is modelled exactly. */
module Config {
  import opened Wrappers
  import Io

  /** std::atof on the text of a value; the decimal reader itself is not modelled. */
  const Atof: string -> real

  // Settings.h uses LH, Tf and ahcw without declaring them, so they have no
  // stated default; these constants stand for whatever values they would start with.
  const DefaultLH: real
  const DefaultTf: real
  const DefaultAhcw: real

  datatype Settings = Settings(
    // grid
    depth: real, delz0: real, delzfrac: real, delzmax: real, save_grid: bool,
    // set up and integration
    tint: real, tunit: real, nsnap: int, nmaxout: int, dtfac: real,
    // physical parameters
    rho0: real, c0: real, k0: real, qgeo0: real, Tsa: real, Tsb: real, Tsc: real,
    LH: real, Tf: real, ahcw: real,
    // trackers and output
    rho: bool, c: bool, k: bool, cap: bool, T: bool, dTdz: bool, q: bool,
    Tmax: bool, Tmin: bool, Ts: bool, qs: bool, t: bool, tsnap: bool)

  /** The in-class initialisers of Settings. They describe a usable run: a grid whose
      first cell and cap are positive with non-shrinking widths, nonzero divisors for
      the heat equation, and a time step factor strictly between 0 and 1. */
  function Defaults(): (s: Settings)
    ensures s.depth == 1.0 && s.delz0 == 0.01 && s.delzfrac == 1.0 && s.delzmax == 1.0
    ensures s.tint == 1.0 && s.tunit == 1.0 && s.nsnap == 5 && s.nmaxout == 100 && s.dtfac == 0.9
    ensures s.rho0 == 1.0 && s.c0 == 1.0 && s.k0 == 1.0 && s.qgeo0 == 1.0
    ensures s.Tsa == 0.0 && s.Tsb == 1.0 && s.Tsc == 1.0
    ensures s.delz0 > 0.0 && s.delzmax > 0.0 && s.delzfrac >= 1.0 && s.depth > 0.0
    ensures s.k0 != 0.0 && s.rho0 * s.c0 != 0.0 && s.Tsc != 0.0
    ensures 0.0 < s.dtfac < 1.0 && s.nsnap > 0 && s.nmaxout > 0
    ensures !s.save_grid && !s.rho && !s.c && !s.k && !s.cap && !s.T && !s.dTdz && !s.q
    ensures !s.Tmax && !s.Tmin && !s.Ts && !s.qs && !s.t && !s.tsnap
  {
    Settings(
      1.0, 0.01, 1.0, 1.0, false,
      1.0, 1.0, 5, 100, 0.9,
      1.0, 1.0, 1.0, 1.0, 0.0, 1.0, 1.0,
      DefaultLH, DefaultTf, DefaultAhcw,
      false, false, false, false, false, false, false,
      false, false, false, false, false, false)
  }

  /** The characters of s that a C string sees: up to the first NUL. */
  function CStr(s: string): string {
    if s == [] || s[0] == '\0' then [] else [s[0]] + CStr(s[1..])
  }

  lemma {:induction false} CStrPlain(s: string)
    requires '\0' !in s
    ensures CStr(s) == s
  {
    if s != [] {
      CStrPlain(s[1..]);
    }
  }

  /** Two C strings whose first string goes on agree when the other goes on with the
      same character and the rests agree. */
  lemma CStrStep(a: string, b: string)
    requires a != [] && a[0] != '\0'
    ensures CStr(a) == CStr(b) <==>
      b != [] && b[0] != '\0' && a[0] == b[0] && CStr(a[1..]) == CStr(b[1..])
  {
    if CStr(a) == CStr(b) {
      assert CStr(b) != [] && CStr(b)[0] == a[0];
      assert CStr(b)[1..] == CStr(b[1..]);
      assert CStr(a)[1..] == CStr(a[1..]);
    }
  }

  /** cmp, that is strcmp(a, b) == 0: equal exactly when the C strings agree. */
  function Cmp(a: string, b: string): (r: bool)
    ensures r <==> CStr(a) == CStr(b)
    decreases |a|
  {
    if a == [] || a[0] == '\0' then b == [] || b[0] == '\0'
    else
      CStrStep(a, b);
      b != [] && b[0] != '\0' && a[0] == b[0] && Cmp(a[1..], b[1..])
  }

  /** eval_txt_bool: true only for the exact text "true". */
  function EvalTxtBool(s: string): (r: bool)
    ensures r <==> CStr(s) == "true"
  {
    CStrPlain("true");
    Cmp(s, "true")
  }

  lemma EvalTxtBoolStrict()
    ensures !EvalTxtBool("True") && !EvalTxtBool("1") && !EvalTxtBool("false")
    ensures EvalTxtBool("true")
  {
    CStrPlain("True");
    CStrPlain("1");
    CStrPlain("false");
    CStrPlain("true");
  }

  /** The C++ conversion long(x) of a double: truncation toward zero. */
  function TruncateTowardZero(x: real): (r: int)
    ensures x >= 0.0 ==> 0 <= r && r as real <= x < r as real + 1.0
    ensures x < 0.0 ==> r <= 0 && r as real - 1.0 < x <= r as real
  {
    if x >= 0.0 then x.Floor else -((-x).Floor)
  }

  /** to_long: the value read as a double (so "1e3" gives 1000), truncated. */
  function ToLong(val: string): int {
    TruncateTowardZero(Atof(CStr(val)))
  }

  // ---------------------------------------------------------------------------
  // keys

  /** The settings a file may assign, one per field of Settings. */
  datatype Key =
    | Depth | Delz0 | Delzfrac | Delzmax | SaveGrid
    | Tint | Tunit | Nsnap | Nmaxout | Dtfac
    | Rho0 | C0 | K0 | Qgeo0 | TsaKey | TsbKey | TscKey | LHKey | TfKey | Ahcw
    | Rho | C | K | Cap | TKey | DTdz | Q | TmaxKey | TminKey | TsKey | Qs | TimeKey | Tsnap

  /** The text that names a key in a settings file. */
  function KeyName(k: Key): string {
    match k
    case Depth => "depth"  case Delz0 => "delz0"  case Delzfrac => "delzfrac"
    case Delzmax => "delzmax"  case SaveGrid => "save_grid"  case Tint => "tint"
    case Tunit => "tunit"  case Nsnap => "nsnap"  case Nmaxout => "nmaxout"
    case Dtfac => "dtfac"  case Rho0 => "rho0"  case C0 => "c0"
    case K0 => "k0"  case Qgeo0 => "qgeo0"  case TsaKey => "Tsa"
    case TsbKey => "Tsb"  case TscKey => "Tsc"  case LHKey => "LH"
    case TfKey => "Tf"  case Ahcw => "ahcw"  case Rho => "rho"
    case C => "c"  case K => "k"  case Cap => "cap"
    case TKey => "T"  case DTdz => "dTdz"  case Q => "q"
    case TmaxKey => "Tmax"  case TminKey => "Tmin"  case TsKey => "Ts"
    case Qs => "qs"  case TimeKey => "t"  case Tsnap => "tsnap"
  }

  lemma KeyNamePlain(k: Key)
    ensures '\0' !in KeyName(k) && CStr(KeyName(k)) == KeyName(k)
  {
    CStrPlain(KeyName(k));
  }

  /** Reads a key back from a name by its length and its first and last characters,
      which already tell the 33 names apart. It is only a device for the proof that
      names are distinct. */
  function DecodeName(name: string): Option<Key> {
    if name == [] then None
    else
    var ends := (name[0], name[|name| - 1]);
    match |name|
    case 1 =>
      if ends == ('c', 'c') then Some(C)
      else if ends == ('k', 'k') then Some(K)
      else if ends == ('T', 'T') then Some(TKey)
      else if ends == ('q', 'q') then Some(Q)
      else if ends == ('t', 't') then Some(TimeKey)
      else None
    case 2 =>
      if ends == ('c', '0') then Some(C0)
      else if ends == ('k', '0') then Some(K0)
      else if ends == ('L', 'H') then Some(LHKey)
      else if ends == ('T', 'f') then Some(TfKey)
      else if ends == ('T', 's') then Some(TsKey)
      else if ends == ('q', 's') then Some(Qs)
      else None
    case 3 =>
      if ends == ('T', 'a') then Some(TsaKey)
      else if ends == ('T', 'b') then Some(TsbKey)
      else if ends == ('T', 'c') then Some(TscKey)
      else if ends == ('r', 'o') then Some(Rho)
      else if ends == ('c', 'p') then Some(Cap)
      else None
    case 4 =>
      if ends == ('t', 't') then Some(Tint)
      else if ends == ('r', '0') then Some(Rho0)
      else if ends == ('a', 'w') then Some(Ahcw)
      else if ends == ('d', 'z') then Some(DTdz)
      else if ends == ('T', 'x') then Some(TmaxKey)
      else if ends == ('T', 'n') then Some(TminKey)
      else None
    case 5 =>
      if ends == ('d', 'h') then Some(Depth)
      else if ends == ('d', '0') then Some(Delz0)
      else if ends == ('t', 't') then Some(Tunit)
      else if ends == ('n', 'p') then Some(Nsnap)
      else if ends == ('d', 'c') then Some(Dtfac)
      else if ends == ('q', '0') then Some(Qgeo0)
      else if ends == ('t', 'p') then Some(Tsnap)
      else None
    case 7 =>
      if ends == ('d', 'x') then Some(Delzmax)
      else if ends == ('n', 't') then Some(Nmaxout)
      else None
    case 8 =>
      if ends == ('d', 'c') then Some(Delzfrac)
      else None
    case 9 =>
      if ends == ('s', 'd') then Some(SaveGrid)
      else None
    case _ => None
  }

  lemma DecodeKeyName(k: Key)
    ensures DecodeName(KeyName(k)) == Some(k)
  {
    match k
    case Depth =>
    case Delz0 =>
    case Delzfrac =>
    case Delzmax =>
    case SaveGrid =>
    case Tint =>
    case Tunit =>
    case Nsnap =>
    case Nmaxout =>
    case Dtfac =>
    case Rho0 =>
    case C0 =>
    case K0 =>
    case Qgeo0 =>
    case TsaKey =>
    case TsbKey =>
    case TscKey =>
    case LHKey =>
    case TfKey =>
    case Ahcw =>
    case Rho =>
    case C =>
    case K =>
    case Cap =>
    case TKey =>
    case DTdz =>
    case Q =>
    case TmaxKey =>
    case TminKey =>
    case TsKey =>
    case Qs =>
    case TimeKey =>
    case Tsnap =>
  }

  /** No two keys share a name. */
  lemma KeyNameInjective(a: Key, b: Key)
    ensures KeyName(a) == KeyName(b) ==> a == b
  {
    DecodeKeyName(a);
    DecodeKeyName(b);
  }

  /** The keys in the order of parse_settings' else-if chain. */
  const AllKeys: seq<Key> := [
    Depth,  Delz0,  Delzfrac,  Delzmax,  SaveGrid,  Tint,  Tunit,
    Nsnap,  Nmaxout,  Dtfac,  Rho0,  C0,  K0,  Qgeo0,
    TsaKey,  TsbKey,  TscKey,  LHKey,  TfKey,  Ahcw,  Rho,
    C,  K,  Cap,  TKey,  DTdz,  Q,  TmaxKey,
    TminKey,  TsKey,  Qs,  TimeKey,  Tsnap]

  lemma AllKeysComplete(k: Key)
    ensures k in AllKeys
  {
  }

  /** The first of keys whose name compares equal to the text. */
  function LookupFrom(name: string, keys: seq<Key>): Option<Key> {
    if keys == [] then None
    else if Cmp(name, KeyName(keys[0])) then Some(keys[0])
    else LookupFrom(name, keys[1..])
  }

  /** The scan finds only a key that compares equal, and finds one when there is one. */
  lemma {:induction false} LookupFromSpec(name: string, keys: seq<Key>)
    ensures LookupFrom(name, keys).Some? ==>
      LookupFrom(name, keys).value in keys && Cmp(name, KeyName(LookupFrom(name, keys).value))
    ensures LookupFrom(name, keys).None? ==> forall j :: 0 <= j < |keys| ==> !Cmp(name, KeyName(keys[j]))
  {
    if keys != [] {
      LookupFromSpec(name, keys[1..]);
    }
  }

  /** The else-if chain of parse_settings: the key the text names, if any. */
  function LookupKey(name: string): Option<Key> {
    LookupFrom(name, AllKeys)
  }

  /** A setting's text selects key k exactly when its C string is k's name. */
  lemma LookupKeyIff(name: string, k: Key)
    ensures LookupKey(name) == Some(k) <==> CStr(name) == KeyName(k)
  {
    KeyNamePlain(k);
    AllKeysComplete(k);
    LookupFromSpec(name, AllKeys);
    match LookupKey(name)
    case None =>
    case Some(k') =>
      KeyNamePlain(k');
      if CStr(name) == KeyName(k) {
        KeyNameInjective(k, k');
      }
  }

  /** Text naming no key selects nothing. */
  lemma LookupKeyNone(name: string)
    ensures LookupKey(name).None? <==> forall k :: CStr(name) != KeyName(k)
  {
    forall k ensures LookupKey(name) == Some(k) <==> CStr(name) == KeyName(k) {
      LookupKeyIff(name, k);
    }
  }

  // ---------------------------------------------------------------------------
  // applying one pair

  datatype Value = Real(r: real) | Int(i: int) | Flag(b: bool)

  /** Of a real, a flag and a count, the one key k's field holds. */
  function Pick(k: Key, x: real, b: bool, n: int): Value {
    match k
    case SaveGrid | Rho | C | K | Cap | TKey | DTdz | Q
       | TmaxKey | TminKey | TsKey | Qs | TimeKey | Tsnap => Flag(b)
    case Nsnap | Nmaxout => Int(n)
    case _ => Real(x)
  }

  /** What parse_settings stores for key k given its text: eval_txt_bool for the
      switches, to_long for the two counts, atof for everything else. */
  function Parse(k: Key, val: string): Value {
    Pick(k, Atof(CStr(val)), EvalTxtBool(val), ToLong(val))
  }

  /** The field that key k selects. */
  function Get(s: Settings, k: Key): Value {
    match k
    case Depth => Real(s.depth)  case Delz0 => Real(s.delz0)  case Delzfrac => Real(s.delzfrac)
    case Delzmax => Real(s.delzmax)  case SaveGrid => Flag(s.save_grid)  case Tint => Real(s.tint)
    case Tunit => Real(s.tunit)  case Nsnap => Int(s.nsnap)  case Nmaxout => Int(s.nmaxout)
    case Dtfac => Real(s.dtfac)  case Rho0 => Real(s.rho0)  case C0 => Real(s.c0)
    case K0 => Real(s.k0)  case Qgeo0 => Real(s.qgeo0)  case TsaKey => Real(s.Tsa)
    case TsbKey => Real(s.Tsb)  case TscKey => Real(s.Tsc)  case LHKey => Real(s.LH)
    case TfKey => Real(s.Tf)  case Ahcw => Real(s.ahcw)  case Rho => Flag(s.rho)
    case C => Flag(s.c)  case K => Flag(s.k)  case Cap => Flag(s.cap)
    case TKey => Flag(s.T)  case DTdz => Flag(s.dTdz)  case Q => Flag(s.q)
    case TmaxKey => Flag(s.Tmax)  case TminKey => Flag(s.Tmin)  case TsKey => Flag(s.Ts)
    case Qs => Flag(s.qs)  case TimeKey => Flag(s.t)  case Tsnap => Flag(s.tsnap)
  }

  /** The assignment in one branch of parse_settings: the field key k selects
      receives the value of its type. */
  function Store(s: Settings, k: Key, x: real, b: bool, n: int): Settings {
    match k
    case Depth => s.(depth := x)
    case Delz0 => s.(delz0 := x)
    case Delzfrac => s.(delzfrac := x)
    case Delzmax => s.(delzmax := x)
    case SaveGrid => s.(save_grid := b)
    case Tint => s.(tint := x)
    case Tunit => s.(tunit := x)
    case Nsnap => s.(nsnap := n)
    case Nmaxout => s.(nmaxout := n)
    case Dtfac => s.(dtfac := x)
    case Rho0 => s.(rho0 := x)
    case C0 => s.(c0 := x)
    case K0 => s.(k0 := x)
    case Qgeo0 => s.(qgeo0 := x)
    case TsaKey => s.(Tsa := x)
    case TsbKey => s.(Tsb := x)
    case TscKey => s.(Tsc := x)
    case LHKey => s.(LH := x)
    case TfKey => s.(Tf := x)
    case Ahcw => s.(ahcw := x)
    case Rho => s.(rho := b)
    case C => s.(c := b)
    case K => s.(k := b)
    case Cap => s.(cap := b)
    case TKey => s.(T := b)
    case DTdz => s.(dTdz := b)
    case Q => s.(q := b)
    case TmaxKey => s.(Tmax := b)
    case TminKey => s.(Tmin := b)
    case TsKey => s.(Ts := b)
    case Qs => s.(qs := b)
    case TimeKey => s.(t := b)
    case Tsnap => s.(tsnap := b)
  }

  /** One branch of parse_settings: parse the text as key k's field demands and
      assign it to that field. */
  function Apply(s: Settings, k: Key, val: string): Settings {
    Store(s, k, Atof(CStr(val)), EvalTxtBool(val), ToLong(val))
  }

  lemma StoreOwn(s: Settings, k: Key, x: real, b: bool, n: int)
    ensures Get(Store(s, k, x, b, n), k) == Pick(k, x, b, n)
  {
    match k
    case Depth =>
    case Delz0 =>
    case Delzfrac =>
    case Delzmax =>
    case SaveGrid =>
    case Tint =>
    case Tunit =>
    case Nsnap =>
    case Nmaxout =>
    case Dtfac =>
    case Rho0 =>
    case C0 =>
    case K0 =>
    case Qgeo0 =>
    case TsaKey =>
    case TsbKey =>
    case TscKey =>
    case LHKey =>
    case TfKey =>
    case Ahcw =>
    case Rho =>
    case C =>
    case K =>
    case Cap =>
    case TKey =>
    case DTdz =>
    case Q =>
    case TmaxKey =>
    case TminKey =>
    case TsKey =>
    case Qs =>
    case TimeKey =>
    case Tsnap =>
  }

  // Storing into one field leaves every other field alone: one lemma per key.

  lemma StoreOtherDepth(s: Settings, x: real, b: bool, n: int, k': Key)
    ensures k' != Depth ==> Get(Store(s, Depth, x, b, n), k') == Get(s, k')
  {
  }

  lemma StoreOtherDelz0(s: Settings, x: real, b: bool, n: int, k': Key)
    ensures k' != Delz0 ==> Get(Store(s, Delz0, x, b, n), k') == Get(s, k')
  {
  }

  lemma StoreOtherDelzfrac(s: Settings, x: real, b: bool, n: int, k': Key)
    ensures k' != Delzfrac ==> Get(Store(s, Delzfrac, x, b, n), k') == Get(s, k')
  {
  }

  lemma StoreOtherDelzmax(s: Settings, x: real, b: bool, n: int, k': Key)
    ensures k' != Delzmax ==> Get(Store(s, Delzmax, x, b, n), k') == Get(s, k')
  {
  }

  lemma StoreOtherSaveGrid(s: Settings, x: real, b: bool, n: int, k': Key)
    ensures k' != SaveGrid ==> Get(Store(s, SaveGrid, x, b, n), k') == Get(s, k')
  {
  }

  lemma StoreOtherTint(s: Settings, x: real, b: bool, n: int, k': Key)
    ensures k' != Tint ==> Get(Store(s, Tint, x, b, n), k') == Get(s, k')
  {
  }

  lemma StoreOtherTunit(s: Settings, x: real, b: bool, n: int, k': Key)
    ensures k' != Tunit ==> Get(Store(s, Tunit, x, b, n), k') == Get(s, k')
  {
  }

  lemma StoreOtherNsnap(s: Settings, x: real, b: bool, n: int, k': Key)
    ensures k' != Nsnap ==> Get(Store(s, Nsnap, x, b, n), k') == Get(s, k')
  {
  }

  lemma StoreOtherNmaxout(s: Settings, x: real, b: bool, n: int, k': Key)
    ensures k' != Nmaxout ==> Get(Store(s, Nmaxout, x, b, n), k') == Get(s, k')
  {
  }

  lemma StoreOtherDtfac(s: Settings, x: real, b: bool, n: int, k': Key)
    ensures k' != Dtfac ==> Get(Store(s, Dtfac, x, b, n), k') == Get(s, k')
  {
  }

  lemma StoreOtherRho0(s: Settings, x: real, b: bool, n: int, k': Key)
    ensures k' != Rho0 ==> Get(Store(s, Rho0, x, b, n), k') == Get(s, k')
  {
  }

  lemma StoreOtherC0(s: Settings, x: real, b: bool, n: int, k': Key)
    ensures k' != C0 ==> Get(Store(s, C0, x, b, n), k') == Get(s, k')
  {
  }

  lemma StoreOtherK0(s: Settings, x: real, b: bool, n: int, k': Key)
    ensures k' != K0 ==> Get(Store(s, K0, x, b, n), k') == Get(s, k')
  {
  }

  lemma StoreOtherQgeo0(s: Settings, x: real, b: bool, n: int, k': Key)
    ensures k' != Qgeo0 ==> Get(Store(s, Qgeo0, x, b, n), k') == Get(s, k')
  {
  }

  lemma StoreOtherTsaKey(s: Settings, x: real, b: bool, n: int, k': Key)
    ensures k' != TsaKey ==> Get(Store(s, TsaKey, x, b, n), k') == Get(s, k')
  {
  }

  lemma StoreOtherTsbKey(s: Settings, x: real, b: bool, n: int, k': Key)
    ensures k' != TsbKey ==> Get(Store(s, TsbKey, x, b, n), k') == Get(s, k')
  {
  }

  lemma StoreOtherTscKey(s: Settings, x: real, b: bool, n: int, k': Key)
    ensures k' != TscKey ==> Get(Store(s, TscKey, x, b, n), k') == Get(s, k')
  {
  }

  lemma StoreOtherLHKey(s: Settings, x: real, b: bool, n: int, k': Key)
    ensures k' != LHKey ==> Get(Store(s, LHKey, x, b, n), k') == Get(s, k')
  {
  }

  lemma StoreOtherTfKey(s: Settings, x: real, b: bool, n: int, k': Key)
    ensures k' != TfKey ==> Get(Store(s, TfKey, x, b, n), k') == Get(s, k')
  {
  }

  lemma StoreOtherAhcw(s: Settings, x: real, b: bool, n: int, k': Key)
    ensures k' != Ahcw ==> Get(Store(s, Ahcw, x, b, n), k') == Get(s, k')
  {
  }

  lemma StoreOtherRho(s: Settings, x: real, b: bool, n: int, k': Key)
    ensures k' != Rho ==> Get(Store(s, Rho, x, b, n), k') == Get(s, k')
  {
  }

  lemma StoreOtherC(s: Settings, x: real, b: bool, n: int, k': Key)
    ensures k' != C ==> Get(Store(s, C, x, b, n), k') == Get(s, k')
  {
  }

  lemma StoreOtherK(s: Settings, x: real, b: bool, n: int, k': Key)
    ensures k' != K ==> Get(Store(s, K, x, b, n), k') == Get(s, k')
  {
  }

  lemma StoreOtherCap(s: Settings, x: real, b: bool, n: int, k': Key)
    ensures k' != Cap ==> Get(Store(s, Cap, x, b, n), k') == Get(s, k')
  {
  }

  lemma StoreOtherTKey(s: Settings, x: real, b: bool, n: int, k': Key)
    ensures k' != TKey ==> Get(Store(s, TKey, x, b, n), k') == Get(s, k')
  {
  }

  lemma StoreOtherDTdz(s: Settings, x: real, b: bool, n: int, k': Key)
    ensures k' != DTdz ==> Get(Store(s, DTdz, x, b, n), k') == Get(s, k')
  {
  }

  lemma StoreOtherQ(s: Settings, x: real, b: bool, n: int, k': Key)
    ensures k' != Q ==> Get(Store(s, Q, x, b, n), k') == Get(s, k')
  {
  }

  lemma StoreOtherTmaxKey(s: Settings, x: real, b: bool, n: int, k': Key)
    ensures k' != TmaxKey ==> Get(Store(s, TmaxKey, x, b, n), k') == Get(s, k')
  {
  }

  lemma StoreOtherTminKey(s: Settings, x: real, b: bool, n: int, k': Key)
    ensures k' != TminKey ==> Get(Store(s, TminKey, x, b, n), k') == Get(s, k')
  {
  }

  lemma StoreOtherTsKey(s: Settings, x: real, b: bool, n: int, k': Key)
    ensures k' != TsKey ==> Get(Store(s, TsKey, x, b, n), k') == Get(s, k')
  {
  }

  lemma StoreOtherQs(s: Settings, x: real, b: bool, n: int, k': Key)
    ensures k' != Qs ==> Get(Store(s, Qs, x, b, n), k') == Get(s, k')
  {
  }

  lemma StoreOtherTimeKey(s: Settings, x: real, b: bool, n: int, k': Key)
    ensures k' != TimeKey ==> Get(Store(s, TimeKey, x, b, n), k') == Get(s, k')
  {
  }

  lemma StoreOtherTsnap(s: Settings, x: real, b: bool, n: int, k': Key)
    ensures k' != Tsnap ==> Get(Store(s, Tsnap, x, b, n), k') == Get(s, k')
  {
  }

  /** Storing into the field of k leaves the field of every other key alone. */
  lemma StoreOther(s: Settings, k: Key, x: real, b: bool, n: int, k': Key)
    ensures k' != k ==> Get(Store(s, k, x, b, n), k') == Get(s, k')
  {
    match k
    case Depth => StoreOtherDepth(s, x, b, n, k');
    case Delz0 => StoreOtherDelz0(s, x, b, n, k');
    case Delzfrac => StoreOtherDelzfrac(s, x, b, n, k');
    case Delzmax => StoreOtherDelzmax(s, x, b, n, k');
    case SaveGrid => StoreOtherSaveGrid(s, x, b, n, k');
    case Tint => StoreOtherTint(s, x, b, n, k');
    case Tunit => StoreOtherTunit(s, x, b, n, k');
    case Nsnap => StoreOtherNsnap(s, x, b, n, k');
    case Nmaxout => StoreOtherNmaxout(s, x, b, n, k');
    case Dtfac => StoreOtherDtfac(s, x, b, n, k');
    case Rho0 => StoreOtherRho0(s, x, b, n, k');
    case C0 => StoreOtherC0(s, x, b, n, k');
    case K0 => StoreOtherK0(s, x, b, n, k');
    case Qgeo0 => StoreOtherQgeo0(s, x, b, n, k');
    case TsaKey => StoreOtherTsaKey(s, x, b, n, k');
    case TsbKey => StoreOtherTsbKey(s, x, b, n, k');
    case TscKey => StoreOtherTscKey(s, x, b, n, k');
    case LHKey => StoreOtherLHKey(s, x, b, n, k');
    case TfKey => StoreOtherTfKey(s, x, b, n, k');
    case Ahcw => StoreOtherAhcw(s, x, b, n, k');
    case Rho => StoreOtherRho(s, x, b, n, k');
    case C => StoreOtherC(s, x, b, n, k');
    case K => StoreOtherK(s, x, b, n, k');
    case Cap => StoreOtherCap(s, x, b, n, k');
    case TKey => StoreOtherTKey(s, x, b, n, k');
    case DTdz => StoreOtherDTdz(s, x, b, n, k');
    case Q => StoreOtherQ(s, x, b, n, k');
    case TmaxKey => StoreOtherTmaxKey(s, x, b, n, k');
    case TminKey => StoreOtherTminKey(s, x, b, n, k');
    case TsKey => StoreOtherTsKey(s, x, b, n, k');
    case Qs => StoreOtherQs(s, x, b, n, k');
    case TimeKey => StoreOtherTimeKey(s, x, b, n, k');
    case Tsnap => StoreOtherTsnap(s, x, b, n, k');
  }

  /** Applying a pair sets the selected field to the parsed text and leaves every other
      field as it was. */
  lemma ApplyFrame(s: Settings, k: Key, val: string, k': Key)
    ensures Get(Apply(s, k, val), k') == if k' == k then Parse(k, val) else Get(s, k')
  {
    var x, b, n := Atof(CStr(val)), EvalTxtBool(val), ToLong(val);
    StoreOwn(s, k, x, b, n);
    StoreOther(s, k, x, b, n, k');
  }

  lemma AgreeGrid1(a: Settings, b: Settings)
    requires Get(a, Depth) == Get(b, Depth) && Get(a, Delz0) == Get(b, Delz0) && Get(a, Delzfrac) == Get(b, Delzfrac)
    ensures a.depth == b.depth && a.delz0 == b.delz0 && a.delzfrac == b.delzfrac
  {
  }

  lemma AgreeGrid2(a: Settings, b: Settings)
    requires Get(a, Delzmax) == Get(b, Delzmax) && Get(a, SaveGrid) == Get(b, SaveGrid)
    ensures a.delzmax == b.delzmax && a.save_grid == b.save_grid
  {
  }

  lemma AgreeRun1(a: Settings, b: Settings)
    requires Get(a, Tint) == Get(b, Tint) && Get(a, Tunit) == Get(b, Tunit) && Get(a, Nsnap) == Get(b, Nsnap)
    ensures a.tint == b.tint && a.tunit == b.tunit && a.nsnap == b.nsnap
  {
  }

  lemma AgreeRun2(a: Settings, b: Settings)
    requires Get(a, Nmaxout) == Get(b, Nmaxout) && Get(a, Dtfac) == Get(b, Dtfac)
    ensures a.nmaxout == b.nmaxout && a.dtfac == b.dtfac
  {
  }

  lemma AgreeMaterial1(a: Settings, b: Settings)
    requires Get(a, Rho0) == Get(b, Rho0) && Get(a, C0) == Get(b, C0) && Get(a, K0) == Get(b, K0)
    ensures a.rho0 == b.rho0 && a.c0 == b.c0 && a.k0 == b.k0
  {
  }

  lemma AgreeMaterial2(a: Settings, b: Settings)
    requires Get(a, Qgeo0) == Get(b, Qgeo0)
    ensures a.qgeo0 == b.qgeo0
  {
  }

  lemma AgreeSurface1(a: Settings, b: Settings)
    requires Get(a, TsaKey) == Get(b, TsaKey) && Get(a, TsbKey) == Get(b, TsbKey) && Get(a, TscKey) == Get(b, TscKey)
    ensures a.Tsa == b.Tsa && a.Tsb == b.Tsb && a.Tsc == b.Tsc
  {
  }

  lemma AgreeSurface2(a: Settings, b: Settings)
    requires Get(a, LHKey) == Get(b, LHKey) && Get(a, TfKey) == Get(b, TfKey) && Get(a, Ahcw) == Get(b, Ahcw)
    ensures a.LH == b.LH && a.Tf == b.Tf && a.ahcw == b.ahcw
  {
  }

  lemma AgreeProfile1(a: Settings, b: Settings)
    requires Get(a, Rho) == Get(b, Rho) && Get(a, C) == Get(b, C) && Get(a, K) == Get(b, K)
    ensures a.rho == b.rho && a.c == b.c && a.k == b.k
  {
  }

  lemma AgreeProfile2(a: Settings, b: Settings)
    requires Get(a, Cap) == Get(b, Cap) && Get(a, TKey) == Get(b, TKey) && Get(a, DTdz) == Get(b, DTdz)
    ensures a.cap == b.cap && a.T == b.T && a.dTdz == b.dTdz
  {
  }

  lemma AgreeProfile3(a: Settings, b: Settings)
    requires Get(a, Q) == Get(b, Q)
    ensures a.q == b.q
  {
  }

  lemma AgreeTracker1(a: Settings, b: Settings)
    requires Get(a, TmaxKey) == Get(b, TmaxKey) && Get(a, TminKey) == Get(b, TminKey) && Get(a, TsKey) == Get(b, TsKey)
    ensures a.Tmax == b.Tmax && a.Tmin == b.Tmin && a.Ts == b.Ts
  {
  }

  lemma AgreeTracker2(a: Settings, b: Settings)
    requires Get(a, Qs) == Get(b, Qs) && Get(a, TimeKey) == Get(b, TimeKey) && Get(a, Tsnap) == Get(b, Tsnap)
    ensures a.qs == b.qs && a.t == b.t && a.tsnap == b.tsnap
  {
  }

  /** Get reads every field: a setting is determined by what it reads. */
  lemma GetExtensional(a: Settings, b: Settings)
    requires forall k :: Get(a, k) == Get(b, k)
    ensures a == b
  {
    AgreeGrid1(a, b);
    AgreeGrid2(a, b);
    AgreeRun1(a, b);
    AgreeRun2(a, b);
    AgreeMaterial1(a, b);
    AgreeMaterial2(a, b);
    AgreeSurface1(a, b);
    AgreeSurface2(a, b);
    AgreeProfile1(a, b);
    AgreeProfile2(a, b);
    AgreeProfile3(a, b);
    AgreeTracker1(a, b);
    AgreeTracker2(a, b);
  }

  // ---------------------------------------------------------------------------
  // parse_settings

  function UnknownSetting(name: string): string {
    "FAILURE: unknown setting in settings file: " + CStr(name)
  }

  /** The pairs applied in order to s; the first unknown key is fatal. */
  function ApplyAll(s: Settings, pairs: seq<Io.Pair>): Result<Settings>
    decreases |pairs|
  {
    if pairs == [] then Ok(s)
    else match LookupKey(pairs[0].key)
      case None => Fail(UnknownSetting(pairs[0].key))
      case Some(k) => ApplyAll(Apply(s, k, pairs[0].val), pairs[1..])
  }

  /** parse_settings: start from the defaults and apply each pair in turn. */
  method ParseSettings(pairs: seq<Io.Pair>) returns (r: Result<Settings>)
    ensures r == ApplyAll(Defaults(), pairs)
    ensures pairs == [] ==> r == Ok(Defaults())
  {
    var s := Defaults();
    var i := 0;
    while i < |pairs|
      invariant 0 <= i <= |pairs|
      invariant ApplyAll(Defaults(), pairs) == ApplyAll(s, pairs[i..])
    {
      assert pairs[i..][0] == pairs[i] && pairs[i..][1..] == pairs[i + 1..];
      var k := LookupKey(pairs[i].key);
      if k.None? {
        return Fail(UnknownSetting(pairs[i].key));
      }
      s := Apply(s, k.value, pairs[i].val);
      i := i + 1;
    }
    assert pairs[i..] == [];
    return Ok(s);
  }

  /** parse_settings is fatal exactly when some pair names no key. */
  lemma {:induction false} ApplyAllFailsIff(s: Settings, pairs: seq<Io.Pair>)
    ensures ApplyAll(s, pairs).Fail? <==> exists j :: 0 <= j < |pairs| && LookupKey(pairs[j].key).None?
    decreases |pairs|
  {
    if pairs != [] {
      match LookupKey(pairs[0].key)
      case None =>
      case Some(k) =>
        ApplyAllFailsIff(Apply(s, k, pairs[0].val), pairs[1..]);
        if exists j :: 0 <= j < |pairs| && LookupKey(pairs[j].key).None? {
          var j :| 0 <= j < |pairs| && LookupKey(pairs[j].key).None?;
          assert pairs[1..][j - 1] == pairs[j];
        }
        if exists j :: 0 <= j < |pairs| - 1 && LookupKey(pairs[1..][j].key).None? {
          var j :| 0 <= j < |pairs| - 1 && LookupKey(pairs[1..][j].key).None?;
          assert pairs[j + 1] == pairs[1..][j];
        }
    }
  }

  /** The text of the last pair that names key k, if any pair does. */
  function LastText(k: Key, pairs: seq<Io.Pair>): Option<string> {
    if pairs == [] then None
    else if LookupKey(pairs[|pairs| - 1].key) == Some(k) then Some(pairs[|pairs| - 1].val)
    else LastText(k, pairs[..|pairs| - 1])
  }

  /** The value key k holds after the pairs: parsed from its last pair, else as in s. */
  function FinalValue(s: Settings, k: Key, pairs: seq<Io.Pair>): Value {
    Resolve(Get(s, k), k, LastText(k, pairs))
  }

  function Resolve(before: Value, k: Key, text: Option<string>): Value {
    match text
    case None => before
    case Some(val) => Parse(k, val)
  }

  /** A later pair overrides an earlier one. */
  lemma {:induction false} LastTextCons(k: Key, p: Io.Pair, rest: seq<Io.Pair>)
    ensures LastText(k, [p] + rest) == if LastText(k, rest).Some? then LastText(k, rest) else LastText(k, [p])
    decreases |rest|
  {
    if rest != [] {
      var u := [p] + rest;
      assert u[|u| - 1] == rest[|rest| - 1];
      assert u[..|u| - 1] == [p] + rest[..|rest| - 1];
      LastTextCons(k, p, rest[..|rest| - 1]);
    } else {
      assert [p] + rest == [p];
    }
  }

  lemma LastTextSingle(k: Key, k0: Key, p: Io.Pair)
    requires LookupKey(p.key) == Some(k0)
    ensures LastText(k, [p]) == if k0 == k then Some(p.val) else None
  {
    assert [p][..0] == [] && [p][0] == p;
    assert LastText(k, [p]) == if k0 == k then Some(p.val) else LastText(k, []);
  }

  /** One step of the fold: if the value after the first pair is what that pair left,
      the rest of the pairs finish the job. */
  lemma LastWinsStep(k: Key, k0: Key, p: Io.Pair, rest: seq<Io.Pair>, before: Value, after: Value)
    requires LastText(k, [p]) == if k0 == k then Some(p.val) else None
    requires after == if k == k0 then Parse(k0, p.val) else before
    ensures Resolve(after, k, LastText(k, rest)) == Resolve(before, k, LastText(k, [p] + rest))
  {
    LastTextCons(k, p, rest);
  }

  /** The last assignment wins: after a successful parse every key holds the value of
      its last pair, or its previous value when no pair names it. */
  lemma {:induction false} ApplyAllLastWins(s: Settings, pairs: seq<Io.Pair>, k: Key)
    requires ApplyAll(s, pairs).Ok?
    ensures Get(ApplyAll(s, pairs).value, k) == FinalValue(s, k, pairs)
    decreases |pairs|
  {
    if pairs != [] {
      var p := pairs[0];
      var k0 := LookupKey(p.key).value;
      var s' := Apply(s, k0, p.val);
      assert ApplyAll(s, pairs) == ApplyAll(s', pairs[1..]);
      ApplyAllLastWins(s', pairs[1..], k);
      ApplyFrame(s, k0, p.val, k);
      LastTextSingle(k, k0, p);
      LastWinsStep(k, k0, p, pairs[1..], Get(s, k), Get(s', k));
      assert [p] + pairs[1..] == pairs;
    }
  }

  /** A key no pair names keeps its value. */
  lemma {:induction false} LastTextUntouched(k: Key, pairs: seq<Io.Pair>)
    requires forall j :: 0 <= j < |pairs| ==> LookupKey(pairs[j].key) != Some(k)
    ensures LastText(k, pairs) == None
  {
    if pairs != [] {
      LastTextUntouched(k, pairs[..|pairs| - 1]);
    }
  }

  /** The pair at j, when no later pair names the same key, decides that key. */
  lemma {:induction false} LastTextLast(k: Key, pairs: seq<Io.Pair>, j: nat)
    requires j < |pairs| && LookupKey(pairs[j].key) == Some(k)
    requires forall j' :: j < j' < |pairs| ==> LookupKey(pairs[j'].key) != Some(k)
    ensures LastText(k, pairs) == Some(pairs[j].val)
    decreases |pairs|
  {
    if j < |pairs| - 1 {
      LastTextLast(k, pairs[..|pairs| - 1], j);
    }
  }

  /** copy_settings: a field-by-field copy, which is the same record. */
  function CopySettings(b: Settings): (a: Settings)
    ensures a == b
  {
    Settings(
      b.depth, b.delz0, b.delzfrac, b.delzmax, b.save_grid,
      b.tint, b.tunit, b.nsnap, b.nmaxout, b.dtfac,
      b.rho0, b.c0, b.k0, b.qgeo0, b.Tsa, b.Tsb, b.Tsc, b.LH, b.Tf, b.ahcw,
      b.rho, b.c, b.k, b.cap, b.T, b.dTdz, b.q,
      b.Tmax, b.Tmin, b.Ts, b.qs, b.t, b.tsnap)
  }
}
