/**
 * What the restore guard must compute, as one pass over a whole archive: which
 * bytes are forwarded, which entries are admitted, and why the archive was cut.
 */
module RestoreArchive {
  import opened Bytes
  import opened Text
  import opened TarHeader

  const MAX_META_BODY := 1024 * 1024

  /** The volume's root name, and the decoder header and record text goes through. */
  datatype Config = Config(rootName: string, decode: Decoder)

  datatype Refusal =
    | DanglingExtendedHeader
    | BadChecksum
    | BadSize
    | OversizedExtendedHeader
    | MalformedPax
    | UnsupportedType(kind: byte)
    | BadPaxSize
    | OutsideRoot(name: string)
    | BeneathSymlink(name: string)
    | HardLinkOutsideRoot(name: string)
    | EndsPartway

  /** What extended headers said about the next entry. */
  datatype Meta = Meta(pax: Option<Records>, longName: Option<string>, longLink: Option<string>)

  const NO_META := Meta(None, None, None)

  // Type flags.
  const OLD_FILE: byte := 0
  const FILE: byte := 48
  const HARD_LINK: byte := 49
  const SYMLINK: byte := 50
  const DIRECTORY: byte := 53
  const FIFO: byte := 54
  const CONTIGUOUS: byte := 55
  const GNU_LINK: byte := 75
  const GNU_NAME: byte := 76
  const PAX_GLOBAL: byte := 103
  const PAX_LOCAL: byte := 120

  predicate IsHeaderOnly(kind: byte) { HARD_LINK <= kind <= FIFO }
  predicate IsAcceptedType(kind: byte) { kind in {FILE, OLD_FILE, CONTIGUOUS} || IsHeaderOnly(kind) }
  predicate IsExtendedType(kind: byte) { kind in {PAX_LOCAL, PAX_GLOBAL, GNU_NAME, GNU_LINK} }

  // ----- paths -----

  /** The names a relative path goes down through; None when it is absolute or goes up anywhere. */
  function Components(path: string): (r: Option<seq<string>>)
    ensures r.Some? ==> forall p :: p in r.value ==> '/' !in p && p != "" && p != "." && p != ".."
  {
    if path != "" && path[0] == '/' then None
    else
      var parts := Meaningful(Split(path, '/'));
      if ".." in parts then None else Some(parts)
  }

  function Meaningful(parts: seq<string>): (r: seq<string>)
    ensures forall p :: p in r <==> p in parts && p != "" && p != "."
  {
    if parts == [] then []
    else (if parts[0] != "" && parts[0] != "." then [parts[0]] else []) + Meaningful(parts[1..])
  }

  predicate InRoot(rootName: string, path: string) {
    var parts := Components(path);
    parts.Some? && parts.value != [] && parts.value[0] == rootName
  }

  predicate IsBeneathSymlink(symlinks: set<string>, parts: seq<string>) {
    exists depth :: 1 <= depth < |parts| && Join(parts[..depth], '/') in symlinks
  }

  /** Why an entry may not be extracted; None when it may. */
  function ProblemWith(cfg: Config, symlinks: set<string>, kind: byte, name: string,
                       linkName: string): Option<Refusal> {
    if !InRoot(cfg.rootName, name) then Some(OutsideRoot(name))
    else if IsBeneathSymlink(symlinks, Components(name).value) then Some(BeneathSymlink(name))
    else if kind == HARD_LINK && !InRoot(cfg.rootName, linkName) then Some(HardLinkOutsideRoot(name))
    else None
  }

  function WithEntry(symlinks: set<string>, kind: byte, name: string): set<string> {
    if kind == SYMLINK && Components(name).Some? then symlinks + {Join(Components(name).value, '/')}
    else symlinks
  }

  // ----- one header -----

  datatype Item =
    | NeedMore
    | EndOfArchive
    | Refuse(why: Refusal)
    | Extended(length: nat, meta: Meta)
    | Admit(kind: byte, name: string, linkName: string, dataLength: nat)

  /** The item at the head of `rest`; `holding` says extended headers are pending. */
  function ReadItem(cfg: Config, meta: Meta, symlinks: set<string>, holding: bool, rest: seq<byte>): (item: Item)
    ensures !item.NeedMore? ==> BLOCK <= |rest|
    ensures item.EndOfArchive? ==> !holding
    ensures item.Extended? ==> BLOCK <= item.length <= |rest| && item.length % BLOCK == 0
    ensures item.Admit? ==> item.dataLength % BLOCK == 0
  {
    if |rest| < BLOCK then NeedMore
    else
      var header: Block := rest[..BLOCK];
      if forall i :: 0 <= i < BLOCK ==> header[i] == 0 then
        if holding then Refuse(DanglingExtendedHeader) else EndOfArchive
      else if !ChecksumOk(cfg.decode, header) then Refuse(BadChecksum)
      else
        var size := NumberField(cfg.decode, header, 124, 12);
        var kind := header[156];
        if size == None then Refuse(BadSize)
        else if IsExtendedType(kind) then
          var length := BLOCK + RoundUpToBlock(size.value);
          if size.value > MAX_META_BODY then Refuse(OversizedExtendedHeader)
          else if |rest| < length then NeedMore
          else ReadExtended(cfg, meta, kind, rest[BLOCK..BLOCK + size.value], length)
        else if !IsAcceptedType(kind) then Refuse(UnsupportedType(kind))
        else ReadEntry(cfg, meta, symlinks, header, kind, size.value)
  }

  function NonEmpty(s: string): Option<string> {
    if s == "" then None else Some(s)
  }

  function ReadExtended(cfg: Config, meta: Meta, kind: byte, body: seq<byte>, length: nat): (item: Item)
    ensures item.Refuse? || (item.Extended? && item.length == length)
  {
    if kind == GNU_NAME then
      Extended(length, meta.(longName := NonEmpty(cfg.decode(UpTo(body, 0)))))
    else if kind == GNU_LINK then
      Extended(length, meta.(longLink := NonEmpty(cfg.decode(UpTo(body, 0)))))
    else
      var records := ParsePax(cfg.decode, body);
      if records == None then Refuse(MalformedPax)
      else Extended(length, if kind == PAX_LOCAL then meta.(pax := records) else meta)
  }

  function PaxValue(meta: Meta, key: string): Option<string> {
    if meta.pax.Some? && key in meta.pax.value then Some(meta.pax.value[key]) else None
  }

  function Or<T>(first: Option<T>, second: T): T {
    if first.Some? then first.value else second
  }

  /** GNU long name over PAX path over the header's own name. */
  function EffectiveName(cfg: Config, meta: Meta, header: Block): string {
    Or(meta.longName, Or(PaxValue(meta, "path"), HeaderName(cfg.decode, header)))
  }

  function EffectiveLink(cfg: Config, meta: Meta, header: Block): string {
    Or(meta.longLink, Or(PaxValue(meta, "linkpath"), ReadString(cfg.decode, header, 157, 100)))
  }

  /** The type byte NUL with a trailing slash in the name means a directory. */
  function EffectiveKind(kind: byte, name: string): byte {
    if kind == OLD_FILE && name != "" && name[|name| - 1] == '/' then DIRECTORY else kind
  }

  /** The size after a PAX override; None when the override is invalid. */
  function EffectiveSize(meta: Meta, ownSize: nat): (r: Option<nat>)
    ensures PaxValue(meta, "size") == None ==> r == Some(ownSize)
  {
    var paxSize := PaxValue(meta, "size");
    if paxSize == None then Some(ownSize)
    else
      var text := CodeUnits(paxSize.value);
      if IsNumeral(10, text) && NumeralValue(10, text) <= MAX_SAFE_INTEGER then Some(NumeralValue(10, text))
      else None
  }

  function ReadEntry(cfg: Config, meta: Meta, symlinks: set<string>, header: Block, rawKind: byte,
                     ownSize: nat): (item: Item)
    ensures item.Refuse? || (item.Admit? && item.dataLength % BLOCK == 0)
  {
    var name := EffectiveName(cfg, meta, header);
    var linkName := EffectiveLink(cfg, meta, header);
    var size := EffectiveSize(meta, ownSize);
    var kind := EffectiveKind(rawKind, name);
    if size == None then Refuse(BadPaxSize)
    else
      var problem := ProblemWith(cfg, symlinks, kind, name, linkName);
      if problem.Some? then Refuse(problem.value)
      else Admit(kind, name, linkName, if IsHeaderOnly(kind) then 0 else RoundUpToBlock(size.value))
  }

  // ----- the whole archive -----

  /** An admitted entry and the stretch of the archive it takes, extended headers included. */
  datatype Entry = Entry(start: nat, header: nat, end: nat, kind: byte, name: string, linkName: string)

  datatype Verdict = Verdict(output: seq<byte>, rejection: Option<Refusal>, admitted: seq<Entry>)

  function After(output: seq<byte>, admitted: seq<Entry>, v: Verdict): Verdict {
    Verdict(output + v.output, v.rejection, admitted + v.admitted)
  }

  /** The pass from a header boundary: `held` are pending extended headers, `at` the offset of `rest`. */
  function PassFrom(cfg: Config, meta: Meta, symlinks: set<string>, held: seq<byte>, at: nat, rest: seq<byte>): Verdict
    requires |held| <= at
    decreases |rest|, 0
  {
    if rest == [] && held == [] then Verdict([], None, [])
    else match ReadItem(cfg, meta, symlinks, held != [], rest)
      case NeedMore => Verdict([], Some(EndsPartway), [])
      case Refuse(why) => Verdict([], Some(why), [])
      case EndOfArchive => Verdict(rest, None, [])
      case Extended(length, meta') =>
        PassFrom(cfg, meta', symlinks, held + rest[..length], at + length, rest[length..])
      case Admit(kind, name, linkName, dataLength) =>
        var length := BLOCK + dataLength;
        var entry := Entry(at - |held|, at, at + length, kind, name, linkName);
        After(held + rest[..BLOCK], [entry],
              Data(cfg, WithEntry(symlinks, kind, name), dataLength, at + length, rest[BLOCK..]))
  }

  /** The pass with `remaining` bytes of an admitted entry's data still to forward, up to offset `end`. */
  function Data(cfg: Config, symlinks: set<string>, remaining: nat, end: nat, rest: seq<byte>): Verdict
    decreases |rest|, 1
  {
    if |rest| < remaining then Verdict(rest, Some(EndsPartway), [])
    else After(rest[..remaining], [], PassFrom(cfg, NO_META, symlinks, [], end, rest[remaining..]))
  }

  function Pass(cfg: Config, archive: seq<byte>): Verdict {
    PassFrom(cfg, NO_META, {}, [], 0, archive)
  }
}
