/** The cluster registry: global clusters plus per-device additions and overrides. */
module ClusterRegistry {
  import opened Wrappers
  import opened Words
  import opened ZclTypes

  datatype AttrDef = AttrDef(id: u16, name: string, ty: ZclType)

  datatype ParamDef = ParamDef(name: string, ty: ZclType)

  datatype CommandDef = CommandDef(id: byte, name: string, params: seq<ParamDef>, untypedParameters: bool)

  datatype ClusterDef = ClusterDef(
    id: u16,
    name: string,
    attributes: map<u16, AttrDef>,
    commands: map<byte, CommandDef>,
    responses: map<byte, CommandDef>)

  function Lookup<K, V>(m: map<K, V>, k: K): Option<V> {
    if k in m then Some(m[k]) else None
  }

  type Clusters = map<u16, ClusterDef>

  /** The device's own definition of a cluster, if it has one. */
  function OwnOf(perDevice: map<u64, Clusters>, device: Option<u64>, id: u16): Option<ClusterDef> {
    if device.Some? && device.value in perDevice then Lookup(perDevice[device.value], id) else None
  }

  /** A cluster for a device, preferring the device's own definition. */
  function Resolved(global: Clusters, perDevice: map<u64, Clusters>, device: Option<u64>, id: u16): Option<ClusterDef> {
    if OwnOf(perDevice, device, id).Some? then OwnOf(perDevice, device, id) else Lookup(global, id)
  }

  class Registry {
    var global: Clusters
    var perDevice: map<u64, Clusters>

    constructor ()
      ensures forall d, c :: Resolved(global, perDevice, d, c) == None
    {
      global, perDevice := map[], map[];
    }

    function Get(device: Option<u64>, id: u16): Option<ClusterDef>
      reads this
    {
      Resolved(global, perDevice, device, id)
    }

    function Attr(device: Option<u64>, cluster: u16, attr: u16): Option<AttrDef>
      reads this
    {
      match Get(device, cluster)
      case None => None
      case Some(c) => Lookup(c.attributes, attr)
    }

    /** A new global cluster reaches everyone who does not override it, and
        nothing else changes. */
    method InsertGlobal(def: ClusterDef)
      modifies this
      ensures forall d, c ::
                Resolved(global, perDevice, d, c) ==
                if c == def.id && OwnOf(old(perDevice), d, c).None? then Some(def)
                else Resolved(old(global), old(perDevice), d, c)
    {
      global := global[def.id := def];
    }

    /** A custom cluster is seen by its own device only. */
    method InsertForDevice(ieee: u64, def: ClusterDef)
      modifies this
      ensures forall d, c ::
                Resolved(global, perDevice, d, c) ==
                if d == Some(ieee) && c == def.id then Some(def)
                else Resolved(old(global), old(perDevice), d, c)
    {
      var own: Clusters := if ieee in perDevice then perDevice[ieee] else map[];
      perDevice := perDevice[ieee := own[def.id := def]];
    }

    /** Dropping a device's clusters gives it back exactly what every other
        device sees, and changes nobody else. */
    method ClearDevice(ieee: u64)
      modifies this
      ensures forall d, c ::
                Resolved(global, perDevice, d, c) ==
                if d == Some(ieee) then Resolved(old(global), old(perDevice), None, c)
                else Resolved(old(global), old(perDevice), d, c)
    {
      perDevice := perDevice - {ieee};
    }
  }
}
