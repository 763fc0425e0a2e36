/** Privilege maps (core/auth.py): the defaults of a plain account and the map
    every administrator has. */
module Privileges {

  /** A JSON value of a privilege; `Raw` stands for any other JSON text. */
  datatype Value = Flag(on: bool) | Count(n: int) | Names(items: seq<string>) | Raw(text: string)

  type PMap = map<string, Value>

  function Defaults(): PMap {
    map[
      "can_use_agent" := Flag(true),
      "can_use_browser" := Flag(true),
      "can_use_bash" := Flag(false),
      "can_use_documents" := Flag(true),
      "can_use_research" := Flag(true),
      "can_generate_images" := Flag(true),
      "can_manage_memory" := Flag(true),
      "max_messages_per_day" := Count(0),
      "allowed_models" := Names([]),
      "allowed_models_restricted" := Flag(false),
      "block_all_models" := Flag(false)
    ]
  }

  /** The value an administrator has instead of a default of the same kind. */
  function Unlimited(v: Value): Value {
    match v
    case Flag(_) => Flag(true)
    case Count(_) => Count(0)
    case _ => Names([])
  }

  function AdminMap(): PMap {
    (map k | k in Defaults() :: Unlimited(Defaults()[k]))
      ["allowed_models_restricted" := Flag(false)]
      ["block_all_models" := Flag(false)]
  }

  /** What a stored map means: known privileges that it does not set have their default. */
  function WithDefaults(stored: PMap): PMap {
    Defaults() + stored
  }

  lemma AdminMapCoversDefaults()
    ensures AdminMap().Keys == Defaults().Keys
    ensures WithDefaults(AdminMap()) == AdminMap()
    ensures AdminMap() != Defaults() && Defaults() != map[]
  {
    assert "allowed_models_restricted" in Defaults() && "block_all_models" in Defaults();
    assert "can_use_bash" in Defaults() && Defaults()["can_use_bash"] == Flag(false);
    assert AdminMap()["can_use_bash"] == Flag(true);
  }

  /** An administrator may do everything and is under no limit: every switch is on
      but the two that restrict models, every number is 0, every list is empty. */
  lemma AdminIsUnrestricted(k: string)
    requires k in Defaults()
    ensures k in AdminMap()
    ensures match Defaults()[k]
            case Flag(_) => AdminMap()[k] == Flag(k != "allowed_models_restricted" && k != "block_all_models")
            case Count(_) => AdminMap()[k] == Count(0)
            case _ => AdminMap()[k] == Names([])
  {
  }
}
