/** `_parse_list_devices` of camera_enumerator/linux.py: the stripped output
    of `v4l2-ctl --list-devices` is cut into blocks at every `"\n\n"`. A block
    with more than two lines whose second line holds `/dev/video` followed by
    a digit becomes a `Camera`; its name is the header before its first colon
    and its index is the number of the first such node. Every other block is
    skipped. */
module DeviceList {
  import opened Wrappers
  import opened Strings
  import opened CameraRecord

  const BlockSeparator: string := "\n\n"
  const NodePrefix: string := "/dev/video"

  /** `device.strip().split('\n')` */
  function Lines(block: string): (lines: seq<string>)
    ensures |lines| >= 1
  {
    SplitNonEmpty(Strip(block), "\n");
    Split(Strip(block), "\n")
  }

  /** `header.split(':')[0]` */
  function NameOf(header: string): (name: string)
    ensures |name| <= |header|
  {
    SplitNonEmpty(header, ":");
    Split(header, ":")[0]
  }

  /** The name is the header up to its first `:`, or all of it when it has none */
  lemma NameOfSpec(header: string)
    ensures NameOf(header) <= header
    ensures ':' !in NameOf(header)
    ensures |NameOf(header)| == |header| || header[|NameOf(header)|] == ':'
  {
    SplitFirst(header, ":");
    FindCharFirst(header, ":");
  }

  /** The pattern `/dev/video\d` matches at `j` */
  predicate NodeAt(line: string, j: nat) {
    StartsAt(line, j, NodePrefix) && j + |NodePrefix| < |line| && IsDigit(line[j + |NodePrefix|])
  }

  /** The leftmost position at or after `k` where `NodeAt` holds */
  function FirstNodeFrom(line: string, k: nat): (r: Option<nat>)
    ensures r.Some? ==> k <= r.value && NodeAt(line, r.value)
    decreases |line| - k
  {
    if k + |NodePrefix| >= |line| then None
    else if NodeAt(line, k) then Some(k)
    else FirstNodeFrom(line, k + 1)
  }

  /** `FirstNodeFrom` skips only positions where the pattern does not match,
      and gives up only when it matches nowhere further on */
  lemma {:induction false} FirstNodeFromSpec(line: string, k: nat)
    ensures FirstNodeFrom(line, k).Some? ==> forall j: nat :: k <= j < FirstNodeFrom(line, k).value ==> !NodeAt(line, j)
    ensures FirstNodeFrom(line, k).None? ==> forall j: nat :: k <= j ==> !NodeAt(line, j)
    decreases |line| - k
  {
    if k + |NodePrefix| < |line| && !NodeAt(line, k) {
      FirstNodeFromSpec(line, k + 1);
      var r := FirstNodeFrom(line, k + 1);
      assert FirstNodeFrom(line, k) == r;
      forall j: nat | k <= j && (r.None? || j < r.value)
        ensures !NodeAt(line, j)
      {
        if j > k {
          assert k + 1 <= j;
        }
      }
    }
  }

  /** `re.search(r'/dev/video(\d+)', line)` followed by `int(match.group(1))` */
  function NodeIndex(line: string): (r: Option<nat>)
  {
    match FirstNodeFrom(line, 0)
    case None => None
    case Some(j) => Some(Value(DigitRun(line, j + |NodePrefix|)))
  }

  /** The search fails exactly when no `/dev/video` is followed by a digit;
      otherwise the index is the value of the whole digit run after the
      leftmost such `/dev/video` */
  lemma NodeIndexSpec(line: string)
    ensures NodeIndex(line).None? <==> forall j: nat :: !NodeAt(line, j)
    ensures NodeIndex(line).Some? ==>
              exists j: nat :: (NodeAt(line, j) && (forall i: nat :: i < j ==> !NodeAt(line, i))
                                && NodeIndex(line).value == Value(DigitRun(line, j + |NodePrefix|)))
  {
    FirstNodeFromSpec(line, 0);
    var r := FirstNodeFrom(line, 0);
    if r.Some? {
      var j := r.value;
      assert NodeIndex(line) == Some(Value(DigitRun(line, j + |NodePrefix|)));
      assert NodeAt(line, j);
    } else {
      assert NodeIndex(line) == None;
    }
  }

  /** One block: a camera with no formats when it has more than two lines
      and its second line names a video node; skipped silently otherwise */
  function ParseBlock(block: string): (c: Option<Camera>)
    ensures c.Some? <==> |Lines(block)| > 2 && exists j: nat :: NodeAt(Lines(block)[1], j)
    ensures c.Some? ==> c.value.formats == [] && c.value.index >= 0
    ensures c.Some? ==> var header := Lines(block)[0];
              && c.value.name <= header && ':' !in c.value.name
              && (|c.value.name| == |header| || header[|c.value.name|] == ':')
    ensures c.Some? ==> var line := Lines(block)[1];
              exists j: nat :: (NodeAt(line, j) && (forall i: nat :: i < j ==> !NodeAt(line, i))
                                && c.value.index == Value(DigitRun(line, j + |NodePrefix|)) as int)
  {
    var lines := Lines(block);
    if |lines| > 2 then
      NodeIndexSpec(lines[1]);
      NameOfSpec(lines[0]);
      match NodeIndex(lines[1])
      case Some(i) => Some(Camera(i, NameOf(lines[0]), []))
      case None => None
    else None
  }

  /** The loop of `_parse_list_devices`: each block in turn goes through
      `parse`, and the cameras it yields are appended in block order */
  function Collect(blocks: seq<string>, parse: string -> Option<Camera>): (cs: seq<Camera>)
    ensures |cs| <= |blocks|
    decreases |blocks|
  {
    if |blocks| == 0 then []
    else
      var rest := Collect(blocks[1..], parse);
      match parse(blocks[0])
      case Some(c) => [c] + rest
      case None => rest
  }

  /** Every camera collected is what `parse` yields for one of the blocks */
  lemma {:induction false} CollectFrom(blocks: seq<string>, parse: string -> Option<Camera>)
    ensures forall i :: 0 <= i < |Collect(blocks, parse)| ==>
              exists j :: 0 <= j < |blocks| && parse(blocks[j]) == Some(Collect(blocks, parse)[i])
    decreases |blocks|
  {
    if |blocks| > 0 {
      var cs := Collect(blocks, parse);
      var tail := blocks[1..];
      var rest := Collect(tail, parse);
      var b := parse(blocks[0]);
      assert cs == (if b.Some? then [b.value] + rest else rest);
      forall i | 0 <= i < |cs|
        ensures exists j :: 0 <= j < |blocks| && parse(blocks[j]) == Some(cs[i])
      {
        if b.Some? && i == 0 {
          assert parse(blocks[0]) == Some(cs[i]);
        } else {
          var k := if b.Some? then i - 1 else i;
          assert cs[i] == rest[k];
          CollectFrom(tail, parse);
          var j :| 0 <= j < |tail| && parse(tail[j]) == Some(rest[k]);
          assert tail[j] == blocks[j + 1];
        }
      }
    } else {
      assert Collect(blocks, parse) == [];
    }
  }

  /** Collecting is block by block: the cameras of two runs of blocks are the
      cameras of the first run followed by those of the second */
  lemma {:induction false} CollectAppend(xs: seq<string>, ys: seq<string>, parse: string -> Option<Camera>)
    ensures Collect(xs + ys, parse) == Collect(xs, parse) + Collect(ys, parse)
    decreases |xs|
  {
    if |xs| == 0 {
      assert xs + ys == ys;
    } else {
      assert (xs + ys)[1..] == xs[1..] + ys;
      CollectAppend(xs[1..], ys, parse);
    }
  }

  /** When every block yields a camera there is exactly one per block, in block order */
  lemma {:induction false} CollectAll(blocks: seq<string>, parse: string -> Option<Camera>)
    requires forall j :: 0 <= j < |blocks| ==> parse(blocks[j]).Some?
    ensures |Collect(blocks, parse)| == |blocks|
    ensures forall j :: 0 <= j < |blocks| ==> Collect(blocks, parse)[j] == parse(blocks[j]).value
    decreases |blocks|
  {
    if |blocks| > 0 {
      CollectAll(blocks[1..], parse);
    }
  }

  /** When no block yields a camera there is none */
  lemma {:induction false} CollectNone(blocks: seq<string>, parse: string -> Option<Camera>)
    requires forall j :: 0 <= j < |blocks| ==> parse(blocks[j]).None?
    ensures Collect(blocks, parse) == []
    decreases |blocks|
  {
    if |blocks| > 0 {
      CollectNone(blocks[1..], parse);
    }
  }

  /** The blocks `_parse_list_devices` walks through */
  function Blocks(output: string): (blocks: seq<string>)
    ensures |blocks| >= 1
  {
    SplitNonEmpty(Strip(output), BlockSeparator);
    Split(Strip(output), BlockSeparator)
  }

  /** `_parse_list_devices(output)` */
  function ParseListDevices(output: string): (cs: seq<Camera>)
    ensures |cs| <= |Blocks(output)|
  {
    Collect(Blocks(output), ParseBlock)
  }

  /** Every camera listed is what one of the blocks parses to, so it has no
      formats, a non-negative index and a name without `:` */
  lemma ParseListDevicesSpec(output: string)
    ensures forall i :: 0 <= i < |ParseListDevices(output)| ==>
              exists j :: 0 <= j < |Blocks(output)| && ParseBlock(Blocks(output)[j]) == Some(ParseListDevices(output)[i])
    ensures forall i :: 0 <= i < |ParseListDevices(output)| ==>
              var c := ParseListDevices(output)[i];
              c.formats == [] && c.index >= 0 && ':' !in c.name
  {
    var blocks := Blocks(output);
    var cs := ParseListDevices(output);
    CollectFrom(blocks, ParseBlock);
    forall i | 0 <= i < |cs|
      ensures cs[i].formats == [] && cs[i].index >= 0 && ':' !in cs[i].name
    {
      var j :| 0 <= j < |blocks| && ParseBlock(blocks[j]) == Some(cs[i]);
    }
  }

  /** Empty output is one empty block, which has a single line and is skipped */
  lemma ParseEmpty()
    ensures ParseListDevices("") == []
  {
    SplitNonEmpty("", BlockSeparator);
    SplitNonEmpty("", "\n");
    assert Blocks("") == [""];
    assert Lines("") == [""];
  }
}
