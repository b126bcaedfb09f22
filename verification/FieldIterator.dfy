/** gen_foreach_field: an iterator over the fields of a line, resumed call by call. */
module FieldIterator {
  import opened EarlyStop
  import opened LineFields
  import opened LoopTypes

  /** What entry->data points to. */
  datatype Data = Null | Live(text: string) | Freed

  /** struct gen_field_value: the private copy of the line and the place reached in it. */
  class FieldValue {
    const strbuff: string
    var ptr: nat

    constructor (s: string)
      ensures strbuff == s && ptr == 0
    {
      strbuff, ptr := s, 0;
    }

    /** The character at a place; the copy is followed by NULs. */
    function At(i: nat): char
    {
      if i < |strbuff| then strbuff[i] else '\0'
    }
  }

  /** struct fcp_one_item; the constructor gives the zeroed item. */
  class Item {
    var node: FieldValue?
    var data: Data
    var flag: nat

    constructor ()
      ensures node == null && data == Null && flag == LOOP_TYPE_START == 0
    {
      node, data, flag := null, Null, LOOP_TYPE_START;
    }

    ghost predicate Valid()
      reads this, node
    {
      node != null ==> node.ptr <= |node.strbuff| && '\0' !in node.strbuff
    }

    /** The fields the coming calls will deliver. */
    ghost function Coming(buff: string, key: char): seq<string>
      requires Valid()
      reads this, node
    {
      if flag == LOOP_TYPE_START then Fields(DropNewline(buff), key)
      else if flag == LOOP_TYPE_CON && node != null then Fields(node.strbuff[node.ptr..], key)
      else []
    }
  }

  /** The two scanning loops: skip blanks and keys, then find the field's end. */
  method ScanField(node: FieldValue, key: char) returns (end: nat)
    requires key != '\0' && node.ptr <= |node.strbuff| && '\0' !in node.strbuff
    modifies node
    ensures old(node.ptr) <= node.ptr <= end <= |node.strbuff|
    ensures node.ptr == end ==> old(Fields(node.strbuff[node.ptr..], key)) == []
    ensures node.ptr < end ==>
      old(Fields(node.strbuff[node.ptr..], key)) == [node.strbuff[node.ptr..end]] + Fields(node.strbuff[end..], key)
  {
    hide Fields;
    ghost var s := node.strbuff;
    ghost var fs := Fields(s[node.ptr..], key);
    while IsBlank(node.At(node.ptr)) || node.At(node.ptr) == key
      invariant old(node.ptr) <= node.ptr <= |s|
      invariant Fields(s[node.ptr..], key) == fs
      decreases |s| - node.ptr
    {
      SkipAt(s, node.ptr, key);
      node.ptr := node.ptr + 1;
    }
    end := node.ptr;
    while node.At(end) != '\0' && node.At(end) != key
      invariant node.ptr <= end <= |s|
      invariant forall i :: node.ptr <= i < end ==> s[i] != key
      decreases |s| - end
    {
      end := end + 1;
    }
    FieldAt(s, node.ptr, end, key);
  }

  /** The end of the iteration: the copy and the last field are freed; the flag stays. */
  method Done(entry: Item)
    modifies entry
    ensures entry.node == null && entry.flag == old(entry.flag)
    ensures entry.data == if old(entry.data) == Null then Null else Freed
  {
    entry.node := null;
    if entry.data != Null {
      entry.data := Freed;
    }
  }

  /** One call of gen_foreach_field delivers the next field, or ends the iteration. */
  method ForeachField(buff: string, key: char, entry: Item) returns (r: int)
    requires key != '\0' && '\0' !in buff
    requires entry.Valid() && entry.data != Freed
    modifies entry, entry.node
    ensures r == 0 || r == -1
    ensures entry.Valid() && (entry.node == old(entry.node) || entry.node == null || fresh(entry.node))
    ensures buff == "" || old(entry.flag) >= 3 ==> r == -1 && unchanged(entry)
    ensures buff != "" && old(entry.flag) < 3 && old(entry.Coming(buff, key)) == [] ==>
      r == -1 && entry.node == null && !entry.data.Live?
    ensures buff != "" && old(entry.flag) < 3 && old(entry.Coming(buff, key)) != [] ==>
      && r == 0
      && entry.flag == LOOP_TYPE_CON == 1
      && entry.data.Live?
      && old(entry.Coming(buff, key)) == [entry.data.text] + entry.Coming(buff, key)
  {
    hide Fields;
    if buff == "" || entry.flag >= LOOP_TYPE_MAX {
      return -1;
    }
    if entry.flag == LOOP_TYPE_START {
      entry.node := new FieldValue(DropNewline(buff));
      entry.flag := LOOP_TYPE_CON;
    } else if entry.flag == LOOP_TYPE_CON {
      if entry.node == null {
        Done(entry);
        return -1;
      }
    } else {
      Done(entry);
      return -1;
    }
    var node := entry.node;
    assert old(entry.flag) == LOOP_TYPE_START ==> node.strbuff[node.ptr..] == DropNewline(buff);
    var end := ScanField(node, key);
    if node.ptr >= end {
      Done(entry);
      return -1;
    }
    entry.data := Live(node.strbuff[node.ptr..end]);
    node.ptr := end;
    return 0;
  }

  /**
    foreach_line_field: a zeroed item, calls until the first -1. The caller ends the loop
    early by setting the flag to LOOP_TYPE_STOP after a field.
   */
  method ForeachLineField(buff: string, key: char, stop: seq<string> -> bool) returns (got: seq<string>)
    requires key != '\0' && '\0' !in buff
    ensures CutAfter(Fields(DropNewline(buff), key), stop, got)
  {
    hide Fields, CutAfter, Going;
    FieldsOfNothing(key);
    got := [];
    var entry := new Item();
    ghost var all := Fields(DropNewline(buff), key);
    ghost var coming, stopped := all, false;
    Start(all, stop);
    var r := ForeachField(buff, key, entry);
    while r == 0
      invariant entry.Valid() && fresh(entry) && (entry.node != null ==> fresh(entry.node))
      invariant r == 0 ==> buff != "" && !stopped && entry.flag == LOOP_TYPE_CON && entry.data.Live?
      invariant r == 0 ==> coming == [entry.data.text] + entry.Coming(buff, key)
      invariant r != 0 ==> stopped || coming == []
      invariant r != 0 && buff != "" ==> entry.node == null && !entry.data.Live?
      invariant if stopped then CutAfter(all, stop, got) else Going(all, stop, got, coming)
      decreases r == 0, |coming|
    {
      coming := entry.Coming(buff, key);
      Deliver(all, stop, got, entry.data.text, coming);
      got := got + [entry.data.text];
      if stop(got) {
        entry.flag := LOOP_TYPE_STOP;
        stopped := true;
      }
      r := ForeachField(buff, key, entry);
    }
    if !stopped {
      End(all, stop, got);
    }
    assert buff != "" ==> entry.node == null && !entry.data.Live?;
  }
}
