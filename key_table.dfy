/**
 * The key table model behind the key lists: one row per key, eleven
 * columns, and a check flag per row that the first column shows and edits.
 *
 * GpgKey is not part of this model: a key is the record of the values its
 * accessors return. Texts shown in the table are Dafny strings.
 */
module KeyTable {

  /** What the table reads from a GpgKey. */
  datatype Key = Key(
    id: string,
    name: string,
    email: string,
    usages: string,       // GetUsagesByKey(key)
    ownerTrust: string,
    createDate: string,   // the creation time formatted as yyyy-MM-dd
    algo: string,
    subkeyCount: nat,
    comment: string,
    isPrivate: bool,
    hasMasterKey: bool,
    hasCardKey: bool)

  /** A QModelIndex: invalid, or a cell given by row and column. */
  datatype ModelIndex = Invalid | Index(row: int, column: int)

  /** A QVariant as the table produces and consumes it. */
  datatype Variant = Empty | Number(n: int) | Str(s: string)

  // Qt::ItemDataRole values the table distinguishes.
  const DisplayRole: int := 0
  const TextAlignmentRole: int := 7
  const CheckStateRole: int := 10

  // Qt::CheckState values.
  const Unchecked: int := 0
  const Checked: int := 2

  /** Qt::AlignCenter, that is Qt::AlignHCenter | Qt::AlignVCenter. */
  const AlignCenter: int := 0x84

  // Qt::ItemFlag values.
  const NoItemFlags: bv32 := 0
  const ItemIsSelectable: bv32 := 1
  const ItemIsUserCheckable: bv32 := 16
  const ItemIsEnabled: bv32 := 32

  /** The number of columns. */
  const ColumnCount: int := 11

  /** The column headers, before translation. */
  const ColumnHeaders: seq<string> := ["Select", "Type", "Name", "Email Address", "Usage", "Trust",
                                       "Key ID", "Create Date", "Algorithm", "Subkey(s)", "Comment"]

  /** The columns whose cells are centred. */
  const CentredColumns: set<int> := {0, 1, 4, 5, 6, 7, 9}

  /**
   * The type column: "pub", or "pub/sec" for a key with secret material;
   * then "#" when the secret key lacks its primary (master) key, then "^"
   * when some secret key lives on a smart card.
   */
  function TypeSymbol(key: Key): (r: string)
    ensures |r| >= 3 && r[..3] == "pub"
    ensures key.isPrivate <==> |r| >= 7 && r[..7] == "pub/sec"
    ensures ('#' in r) <==> key.isPrivate && !key.hasMasterKey
    ensures key.hasCardKey <==> r[|r| - 1] == '^'
    ensures |r| == (if key.isPrivate then 7 else 3) + (if key.isPrivate && !key.hasMasterKey then 1 else 0)
                   + (if key.hasCardKey then 1 else 0)
  {
    var base := if key.isPrivate then "pub/sec" else "pub";
    var offline := if key.isPrivate && !key.hasMasterKey then base + "#" else base;
    if key.hasCardKey then offline + "^" else offline
  }

  /**
   * The text or number a cell shows under DisplayRole: the row number, the
   * type symbol, then the key's fields in the order of ColumnHeaders; nothing
   * outside the eleven columns.
   */
  function DisplayValue(key: Key, row: int, column: int): (r: Variant)
    ensures column == 0 ==> r == Number(row)
    ensures column == 1 ==> r == Str(TypeSymbol(key))
    ensures column == 2 ==> r == Str(key.name)
    ensures column == 3 ==> r == Str(key.email)
    ensures column == 4 ==> r == Str(key.usages)
    ensures column == 5 ==> r == Str(key.ownerTrust)
    ensures column == 6 ==> r == Str(key.id)
    ensures column == 7 ==> r == Str(key.createDate)
    ensures column == 8 ==> r == Str(key.algo)
    ensures column == 9 ==> r == Number(key.subkeyCount)
    ensures column == 10 ==> r == Str(key.comment)
    ensures r == Empty <==> !(0 <= column < ColumnCount)
  {
    match column
    case 0 => Number(row)
    case 1 => Str(TypeSymbol(key))
    case 2 => Str(key.name)
    case 3 => Str(key.email)
    case 4 => Str(key.usages)
    case 5 => Str(key.ownerTrust)
    case 6 => Str(key.id)
    case 7 => Str(key.createDate)
    case 8 => Str(key.algo)
    case 9 => Number(key.subkeyCount)
    case 10 => Str(key.comment)
    case _ => Empty
  }

  /** Qt::ItemFlags of a cell: nothing for an invalid index, checkable in the first column. */
  function Flags(index: ModelIndex): (r: bv32)
    ensures r == NoItemFlags <==> index.Invalid?
    ensures r & ItemIsUserCheckable != 0 <==> index.Index? && index.column == 0
    ensures index.Index? ==> r & (ItemIsSelectable | ItemIsEnabled) == ItemIsSelectable | ItemIsEnabled
    ensures r & !(ItemIsSelectable | ItemIsEnabled | ItemIsUserCheckable) == 0
  {
    if index.Invalid? then NoItemFlags
    else if index.column == 0 then ItemIsUserCheckable | ItemIsSelectable | ItemIsEnabled
    else ItemIsSelectable | ItemIsEnabled
  }

  /**
   * 2^64. The key list's size() is taken to be an unsigned 64-bit size_t,
   * so a row compared with it is converted to unsigned 64 bits.
   */
  const SizeRange: int := 0x1_0000_0000_0000_0000

  /** An int row as the unsigned value it becomes when compared with a size_t size(). */
  function AsSize(row: int): (r: nat)
    requires -0x8000_0000 <= row < 0x8000_0000
    ensures 0 <= row ==> r == row
    ensures row < 0 ==> r >= SizeRange - 0x8000_0000
  {
    if row < 0 then row + SizeRange else row
  }

  class KeyTableModel {
    /** The keys, one per row. */
    const keys: seq<Key>
    /** The GnuPG context channel the keys came from. */
    const channel: int
    /** The check flag of each row. */
    var checkState: seq<bool>

    /** One check flag per key. */
    ghost predicate Valid()
      reads this
    {
      |checkState| == |keys|
    }

    /** An index this model can hand out: invalid, or a cell within its rows and columns. */
    predicate Belongs(index: ModelIndex)
    {
      index.Invalid? || (0 <= index.row < |keys| && 0 <= index.column < ColumnCount)
    }

    /** One unchecked flag per key. */
    constructor (channel: int, keys: seq<Key>)
      ensures this.keys == keys && this.channel == channel
      ensures Valid() && forall i :: 0 <= i < |checkState| ==> !checkState[i]
    {
      this.keys, this.channel := keys, channel;
      checkState := seq(|keys|, _ => false);
    }

    /** rowCount: the number of keys. */
    function RowCount(): (r: int)
      ensures r == |keys|
    {
      |keys|
    }

    /** columnCount: one column per header. */
    function ColumnCountOf(): (r: int)
      ensures r == |ColumnHeaders|
    {
      ColumnCount
    }

    /** headerData: the header text for the horizontal DisplayRole, nothing otherwise. */
    function HeaderData(section: int, horizontal: bool, role: int): (r: Variant)
      requires role == DisplayRole && horizontal ==> 0 <= section < |ColumnHeaders|
      ensures r != Empty <==> role == DisplayRole && horizontal
      ensures r != Empty ==> r == Str(ColumnHeaders[section])
    {
      if role == DisplayRole && horizontal then Str(ColumnHeaders[section]) else Empty
    }

    /**
     * data: nothing for an invalid index or an empty table; the check flag
     * as Checked or Unchecked for CheckStateRole in the first column; the
     * cell's text or number for DisplayRole; AlignCenter for the centred
     * columns under TextAlignmentRole; nothing otherwise.
     */
    function Data(index: ModelIndex, role: int): (r: Variant)
      requires Valid() && Belongs(index)
      reads this
      ensures index.Invalid? || keys == [] ==> r == Empty
      ensures index.Index? && keys != [] && role == CheckStateRole ==>
        r == if index.column == 0 then Number(if checkState[index.row] then Checked else Unchecked) else Empty
      ensures index.Index? && keys != [] && role == DisplayRole ==> r == DisplayValue(keys[index.row], index.row, index.column)
      ensures index.Index? && keys != [] && role == TextAlignmentRole ==>
        r == if index.column in CentredColumns then Number(AlignCenter) else Empty
      ensures role != CheckStateRole && role != DisplayRole && role != TextAlignmentRole ==> r == Empty
    {
      if index.Invalid? || keys == [] then Empty
      else if role == CheckStateRole && index.column == 0 then
        Number(if checkState[index.row] then Checked else Unchecked)
      else if role == DisplayRole then DisplayValue(keys[index.row], index.row, index.column)
      else if role == TextAlignmentRole then
        if index.column in CentredColumns then Number(AlignCenter) else Empty
      else Empty
    }

    /**
     * setData: CheckStateRole on the first column sets that row's flag to
     * whether the value is Checked, and succeeds; anything else fails and
     * changes nothing.
     */
    method SetData(index: ModelIndex, value: Variant, role: int) returns (ok: bool)
      requires Valid() && Belongs(index)
      modifies this
      ensures Valid()
      ensures ok <==> index.Index? && index.column == 0 && role == CheckStateRole
      ensures ok ==> checkState == old(checkState)[index.row := value == Number(Checked)]
      ensures !ok ==> checkState == old(checkState)
      ensures ok && keys != [] ==> Data(index, CheckStateRole) == Number(if value == Number(Checked) then Checked else Unchecked)
    {
      if index.Invalid? {
        return false;
      }
      if index.column == 0 && role == CheckStateRole {
        checkState := checkState[index.row := value == Number(Checked)];
        return true;
      }
      return false;
    }

    /** GetAllKeyIds: the key ids in row order. */
    method GetAllKeyIds() returns (ids: seq<string>)
      ensures |ids| == |keys| && forall i :: 0 <= i < |keys| ==> ids[i] == keys[i].id
    {
      ids := [];
      for i := 0 to |keys|
        invariant |ids| == i && forall j :: 0 <= j < i ==> ids[j] == keys[j].id
      {
        ids := ids + [keys[i].id];
      }
    }

    /**
     * GetKeyIDByRow: the id of the key in that row, or the empty string for
     * a row past the end; with an unsigned size(), a negative row converts
     * to a huge value and is past the end too.
     */
    function GetKeyIDByRow(row: int): (r: string)
      requires -0x8000_0000 <= row < 0x8000_0000 && |keys| < SizeRange - 0x8000_0000
      ensures r == if 0 <= row < |keys| then keys[row].id else ""
    {
      if |keys| <= AsSize(row) then "" else keys[row].id
    }

    /** IsPrivateKeyByRow: whether the key in that row has secret material; false past the end. */
    function IsPrivateKeyByRow(row: int): (r: bool)
      requires -0x8000_0000 <= row < 0x8000_0000 && |keys| < SizeRange - 0x8000_0000
      ensures r <==> 0 <= row < |keys| && keys[row].isPrivate
    {
      if |keys| <= AsSize(row) then false else keys[row].isPrivate
    }
  }
}
