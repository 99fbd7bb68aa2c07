/** Rendering stored items as records: itemRRs and soa of server.go. */
module Records {
  import opened Wrappers
  import opened Strings
  import opened Values
  import opened Dns
  import opened Names
  import opened Txt

  /** The handler's configuration, the JSON of its status, its advertised address, and the library functions it
      calls: JSON printing and parsing, and record lengths. */
  datatype Config = Config(
    zone: Str,
    ttl: uint32,
    gsis: map<Str, Str>,
    writable: bool,
    enumerable: bool,
    marshal: Item -> Option<Str>,
    unmarshal: Str -> Option<Item>,
    size: RR -> nat,
    status: Str,
    isV4: bool,
    address: Str)

  /** main.go lower-cases the zone before anything else sees it. */
  predicate ZoneIsLower(cfg: Config) {
    ToLower(cfg.zone) == cfg.zone
  }

  function Soa(cfg: Config, serial: uint32): RR {
    SOA(cfg.zone, cfg.ttl, serial, cfg.ttl)
  }

  /** The TXT record at a key's owner name that holds this JSON in character strings. */
  function RecordAt(cfg: Config, key: Str, blob: Str): RR {
    TXT(ItemName(cfg.zone, key), cfg.ttl, Chunks(blob, MAX_TXT_CHUNK))
  }

  /** Records tell owner names and JSON apart. */
  lemma SameRecord(cfg: Config, k: Str, a: Str, key: Str, b: Str)
    ensures RecordAt(cfg, k, a) == RecordAt(cfg, key, b) <==> ItemName(cfg.zone, k) == ItemName(cfg.zone, key) && a == b
  {
    ChunksAreTheChunking(a, MAX_TXT_CHUNK, Chunks(a, MAX_TXT_CHUNK));
    ChunksAreTheChunking(b, MAX_TXT_CHUNK, Chunks(b, MAX_TXT_CHUNK));
  }

  /** One TXT record holding the item's JSON in character strings, or an error when it has no JSON. */
  function ItemRRs(cfg: Config, key: Str, item: Item): Option<seq<RR>> {
    var blob := cfg.marshal(item);
    if blob.None? then None
    else Some([RecordAt(cfg, key, blob.value)])
  }

  method RenderItem(cfg: Config, key: Str, item: Item) returns (r: Option<seq<RR>>)
    ensures r == ItemRRs(cfg, key, item)
  {
    var blob := cfg.marshal(item);
    if blob.None? {
      return None;
    }
    var name := ItemNameByScan(cfg.zone, key);
    var chunks := ChunkBytes(blob.value, MAX_TXT_CHUNK);
    r := Some([TXT(name, cfg.ttl, chunks)]);
  }

  /** The JSON shown for a stored key, when it has any. */
  function JsonAt(cfg: Config, items: map<Str, Item>, key: Str): Option<Str> {
    if key in items then cfg.marshal(items[key]) else None
  }

  /** The JSON shown at the same owner name by the one other key that can be printed there. */
  function TwinJson(cfg: Config, items: map<Str, Item>, key: Str): Option<Str> {
    if Twin(key).None? then None else JsonAt(cfg, items, Twin(key).value)
  }

  /** What the transfer and the journal show of an item: nothing when it cannot be rendered. */
  function Rendering(cfg: Config, key: Str, item: Item): (rrs: seq<RR>)
    ensures forall r :: r in rrs ==> r.TXT? && r.name == ItemName(cfg.zone, key)
  {
    var rrs := ItemRRs(cfg, key, item);
    if rrs.None? then [] else rrs.value
  }

  /** The zone as a set of records: every stored item, rendered. */
  function ZoneRRs(cfg: Config, items: map<Str, Item>): set<RR> {
    set k, r | k in items && r in Rendering(cfg, k, items[k]) :: r
  }
}
