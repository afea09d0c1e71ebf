/** The boundary to the image compressor (imagemin with the mozjpeg and
    pngquant plugins): the plugin choice of index.js:50-52, the options
    built at lines 150-155, and the reply the compressor gives. */
module Codec {
  import opened Wrappers
  import opened Text
  import opened FileSystem
  import opened Classifier

  /** A compressor plugin with its quality setting; pngquant's range is kept
      in hundredths, so 70 stands for 0.70. */
  datatype Plugin = Mozjpeg(quality: int) | Pngquant(low: int, high: int)

  /** The options passed to compressImages: the JPEG quality and the PNG
      quality range in hundredths. */
  datatype Options = Options(quality: int, pngLow: int, pngHigh: int)

  /** One file a plugin produces: its bytes, and whether imagemin reports
      where it wrote them. */
  datatype Output = Output(named: bool, data: Content)

  /** The image compressor as an oracle: the bytes of the source and the
      plugin in; None when the plugin throws, else the files it produced. */
  type Compressor = (Content, Plugin) -> Option<seq<Output>>

  /** One element of the array imagemin resolves with. `destinationPath` is
      None when it is missing. */
  datatype FileObject = FileObject(destinationPath: Option<Path>, data: Content)

  /** What `await imagemin(...).catch(...)` yields at line 47: nothing when
      imagemin rejected (the catch of lines 54-56 logs and returns
      undefined), else the array. */
  datatype Reply = Rejected | Files(files: seq<FileObject>)

  /** The objects imagemin resolves with for the outputs `outs` of a source
      whose written copy would be `target`. */
  function Objects(outs: seq<Output>, target: Path): (objs: seq<FileObject>)
    ensures |objs| == |outs|
    ensures forall k :: 0 <= k < |outs| ==> objs[k].data == outs[k].data
    ensures forall k :: 0 <= k < |outs| ==> (objs[k].destinationPath.Some? <==> outs[k].named)
    ensures forall k :: 0 <= k < |outs| && outs[k].named ==> objs[k].destinationPath == Some(target)
  {
    seq(|outs|, k requires 0 <= k < |outs| => FileObject(if outs[k].named then Some(target) else None, outs[k].data))
  }

  /** The first output carries a destination. */
  predicate FirstNamed(outs: seq<Output>)
  {
    |outs| > 0 && outs[0].named
  }

  /** `imagemin([src], {destination: dest, plugins: [plugin]})`: reads `src`,
      hands its bytes to the compressor, and writes the first output under
      `dest` with the source's own name, creating `dest` first. Anything
      that throws on the way makes it reject. A rejection after `dest` was
      created leaves the new directories in place. `src` is taken as a
      literal path: imagemin's glob matching of its inputs and its filter of
      junk names are not modelled. */
  function Imagemin(t: Node, codec: Compressor, src: Path, dest: Path, plugin: Plugin): (r: (Node, Reply))
    requires src != []
    ensures r.1.Files? <==>
      && IsFile(t, src)
      && codec(Lookup(t, src).value.data, plugin).Some?
      && (FirstNamed(codec(Lookup(t, src).value.data, plugin).value) ==> Writable(t, dest + [src[|src| - 1]]))
    ensures r.1.Files? ==> r.1.files == Objects(codec(Lookup(t, src).value.data, plugin).value, dest + [src[|src| - 1]])
    ensures r.1.Files? && |r.1.files| > 0 && r.1.files[0].destinationPath.Some? ==>
      && r.1.files[0].destinationPath.value == dest + [src[|src| - 1]]
      && Lookup(r.0, dest + [src[|src| - 1]]) == Some(File(r.1.files[0].data))
    ensures SameOutside(t, r.0, dest + [src[|src| - 1]])
    ensures DirsKept(t, r.0)
    ensures r.0 == t || IsDir(r.0, dest)
    ensures r.1.Files? && |r.1.files| > 0 && r.1.files[0].destinationPath.Some? ==> IsDir(r.0, dest)
  {
    var target := dest + [src[|src| - 1]];
    match Lookup(t, src)
    case Some(File(c)) =>
      (match codec(c, plugin)
       case None => (t, Rejected)
       case Some(outs) =>
         if !FirstNamed(outs) then (t, Files(Objects(outs, target)))
         else
           assert Parent(target) == dest;
           MkdirParent(t, target);
           match MkdirP(t, dest)
           case Err(_) => (t, Rejected)
           case Ok(t1) =>
             match WriteFile(t1, target, outs[0].data)
             case Err(_) => (t1, Rejected)
             case Ok(t2) => (t2, Files(Objects(outs, target))))
    case _ => (t, Rejected)
  }

  /** Lines 50-52: mozjpeg for a path text ending in ".jpg" exactly, pngquant
      for everything else. */
  function PluginFor(filePathText: string, opts: Options): (pl: Plugin)
    ensures pl.Mozjpeg? ==> pl.quality == opts.quality
    ensures pl.Pngquant? ==> pl.low == opts.pngLow && pl.high == opts.pngHigh
  {
    if EndsWith(filePathText, ".jpg") then Mozjpeg(opts.quality)
    else Pngquant(opts.pngLow, opts.pngHigh)
  }

  /** Of the files the walk accepts, only those whose name ends in ".jpg",
      lower case, go to mozjpeg; ".jpeg", ".JPG" and ".png" files all go to
      pngquant. */
  lemma OnlyLowerCaseJpgUsesMozjpeg(root: Path, dir: Path, name: Name, opts: Options)
    requires IsSegment(name)
    ensures PluginFor(PathText(root, dir + [name]), opts).Mozjpeg? <==> EndsWith(name, ".jpg")
    ensures MatchesImagePattern(PathText(root, dir + [name])) && !EndsWith(name, ".jpg") ==>
      PluginFor(PathText(root, dir + [name]), opts) == Pngquant(opts.pngLow, opts.pngHigh)
  {
    var d := root + dir;
    assert root + (dir + [name]) == d + [name];
    if d != [] {
      RenderAppend(d, name);
      JoinedEndsWith(Render(d), name, ".jpg");
    }
  }

  /** Concrete cases of the dispatch: "a.JPG" and "b.jpeg" are images that
      pngquant gets, "c.jpg" goes to mozjpeg. */
  lemma DispatchExamples(opts: Options)
    ensures MatchesImagePattern("a.JPG") && PluginFor("a.JPG", opts).Pngquant?
    ensures MatchesImagePattern("b.jpeg") && PluginFor("b.jpeg", opts).Pngquant?
    ensures MatchesImagePattern("c.jpg") && PluginFor("c.jpg", opts).Mozjpeg?
  {
    assert "a.JPG"[1] == '.' && EqualsIgnoringCase("a.JPG"[2..], "jpg");
    assert "b.jpeg"[1] == '.' && EqualsIgnoringCase("b.jpeg"[2..], "jpeg");
    assert "c.jpg"[1] == '.' && EqualsIgnoringCase("c.jpg"[2..], "jpg");
  }

  /** Lines 150-155: the options built from the prompted quality `q`; the PNG
      range `[(q - 10) / 100, q / 100]` is kept in hundredths. */
  function OptionsFromQuality(q: int): (o: Options)
    ensures o.quality == q
    ensures o.pngLow <= o.pngHigh && o.pngHigh - o.pngLow == 10
    ensures o.pngHigh == q
  {
    Options(q, q - 10, q)
  }

  /** For a prompted quality of 80 the PNG range is (0.70, 0.80); within
      10..100 the range lies inside [0, 1], but below 10 its lower end is
      negative. */
  lemma PngRangeBounds(q: int)
    requires 0 <= q <= 100
    ensures q == 80 ==> OptionsFromQuality(q).pngLow == 70 && OptionsFromQuality(q).pngHigh == 80
    ensures 10 <= q ==> 0 <= OptionsFromQuality(q).pngLow && OptionsFromQuality(q).pngHigh <= 100
    ensures q < 10 <==> OptionsFromQuality(q).pngLow < 0
  {
  }
}
