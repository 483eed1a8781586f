/** Compression followed by decompression, at the level of the filesystem.
    The codecs are parameters, so the one property required of them is stated
    as a precondition: the gzip reader gives back what the gzip writer was
    given.  Under it, compressing a file without keep and then
    decompressing the result without keep restores the filesystem exactly. */
module RoundTrip {
  import opened Wire
  import opened Transcode
  import opened Compress
  import opened Decompress

  lemma CompressThenDecompress(files: map<string, seq<byte>>, filename: string, suffix: string,
                               level: int, named: bool, env: Env)
    requires filename in files && filename + suffix !in files && suffix != ""
    requires env.fault.None?
    requires var member := env.gzipEncode(level, GzipHeaderFor(named, filename, env.modUnix(filename)), files[filename]);
             && |member| <= env.room
             && |files[filename]| <= env.room
             && env.gzipDecode(member) == Ok(files[filename])
    ensures var compressed := Run(files, filename, filename + suffix, false, false, env.fault,
                                  input => CompressStage(env, level, GzipHeaderFor(named, filename, env.modUnix(filename)), input));
            var restored := Run(compressed.files, filename + suffix, OutputPath(filename + suffix, suffix), false, false,
                                env.fault, input => DecompressStage(env, input));
            && compressed.err == None
            && filename !in compressed.files && filename + suffix in compressed.files
            && restored.err == None
            && restored.files == files
  {
    var header := GzipHeaderFor(named, filename, env.modUnix(filename));
    var member := env.gzipEncode(level, header, files[filename]);
    var gz := filename + suffix;
    assert gz != filename by {
      assert |gz| == |filename| + |suffix|;
    }
    var files1 := files[gz := member] - {filename};
    assert HasSuffix(gz, suffix) by {
      assert gz[|gz| - |suffix|..] == suffix;
    }
    assert OutputPath(gz, suffix) == filename;
    assert files1[filename := files[filename]] - {gz} == files;
  }
}
