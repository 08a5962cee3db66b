/** The collaborators the recompressor drives but does not implement: the
    file system (as `Image.open`, `os.path.getsize` and `FileStorage.save`
    see it) and Pillow's image handle, resize and WebP writer. Pixels are
    not modelled: a frame is known by the source index it was copied from
    and by its size. */
module Pillow {
  import opened Wrappers

  datatype Size = Size(width: nat, height: nat)

  /** What a file decodes to. `isAnimated` is None when the handle has no
      `is_animated` attribute; `frames` gives `n_frames` and each frame's
      size; frames listed in `undecodable` raise when their pixels are
      loaded; `info` is the handle's metadata dictionary. */
  datatype ImageData = ImageData(
    isAnimated: Option<bool>,
    frames: seq<Size>,
    undecodable: set<nat>,
    info: map<string, int>)

  /** A file on disk: its byte size and, when Pillow can open it, what it
      decodes to (None: `Image.open` raises). */
  datatype StoredFile = StoredFile(bytes: nat, image: Option<ImageData>)

  /** One decoded frame: the sequence index it was copied at and its size. */
  datatype Frame = Frame(index: nat, width: nat, height: nat)

  /** The keyword arguments of one `save(...)` call on the base frame. */
  datatype SaveCall = SaveCall(
    path: string,
    base: Frame,
    appendImages: seq<Frame>,
    saveAll: bool,
    format: string,
    quality: int,
    encodeMethod: int,
    loop: int,
    duration: int,
    minimizeSize: bool)

  /** How the WebP writer behaves: whether it accepts a call (otherwise it
      raises) and the file it writes for it. */
  datatype Codec = Codec(accepts: SaveCall -> bool, output: SaveCall -> StoredFile)

  /** The frame `img.copy()` yields with the cursor at `i`: None when
      decoding that frame raises. */
  function CopyAt(img: ImageData, i: nat): Option<Frame>
    requires i < |img.frames|
  {
    if i in img.undecodable then None
    else Some(Frame(i, img.frames[i].width, img.frames[i].height))
  }

  /** `frame.resize((width, height), LANCZOS)`: Pillow refuses a target
      dimension below 1 with a ValueError; otherwise the result has the
      requested size. The resampling itself is not modelled. */
  function Resize(f: Frame, width: int, height: int): Option<Frame> {
    if width >= 1 && height >= 1 then Some(Frame(f.index, width, height)) else None
  }

  /** The files the program reads and writes, by path. */
  class Disk {
    var files: map<string, StoredFile>

    constructor (initial: map<string, StoredFile>)
      ensures files == initial
    {
      files := initial;
    }

    /** `FileStorage.save(path)` and any other whole-file write. */
    method Write(path: string, f: StoredFile)
      modifies this
      ensures files == old(files)[path := f]
    {
      files := files[path := f];
    }

    /** `os.path.getsize(path)` for a path known to exist. */
    method Size(path: string) returns (bytes: nat)
      requires path in files
      ensures bytes == files[path].bytes
    {
      bytes := files[path].bytes;
    }
  }

  /** `Image.open(path)` raises unless the file exists and decodes. */
  predicate OpenFails(files: map<string, StoredFile>, path: string) {
    path !in files || files[path].image.None?
  }

  /** An open image handle with its seek cursor. */
  class ImageHandle {
    const data: ImageData
    var position: nat

    constructor (d: ImageData)
      ensures data == d && position == 0
    {
      data := d;
      position := 0;
    }

    function NFrames(): nat {
      |data.frames|
    }

    /** `img.seek(i)`; the program only seeks within `range(n_frames)`. */
    method Seek(i: nat)
      requires i < NFrames()
      modifies this
      ensures position == i
    {
      position := i;
    }

    /** `img.copy()`: an independent copy of the frame under the cursor. */
    method Copy() returns (f: Option<Frame>)
      requires position < NFrames()
      ensures f == CopyAt(data, position)
    {
      f := CopyAt(data, position);
    }
  }

  /** `Image.open(path)`: null when it raises. */
  method Open(disk: Disk, path: string) returns (h: ImageHandle?)
    ensures h == null <==> OpenFails(disk.files, path)
    ensures h != null ==> fresh(h) && h.data == disk.files[path].image.value && h.position == 0
  {
    if OpenFails(disk.files, path) {
      h := null;
    } else {
      h := new ImageHandle(disk.files[path].image.value);
    }
  }

  /** Pillow's WebP writer as a sink: it logs every call it completes and
      writes the codec's output file at the call's path. */
  class Encoder {
    const codec: Codec
    var saves: seq<SaveCall>

    constructor (c: Codec)
      ensures codec == c && saves == []
    {
      codec := c;
      saves := [];
    }

    /** `base.save(path, save_all=True, append_images=..., ...)`: `ok` is
        false when the writer raises. */
    method Save(call: SaveCall, disk: Disk) returns (ok: bool)
      modifies this, disk
      ensures ok == codec.accepts(call)
      ensures saves == old(saves) + (if ok then [call] else [])
      ensures disk.files == if ok then old(disk.files)[call.path := codec.output(call)] else old(disk.files)
    {
      ok := codec.accepts(call);
      if ok {
        saves := saves + [call];
        disk.Write(call.path, codec.output(call));
      }
    }
  }
}
