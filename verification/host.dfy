/**
 What the plugin receives from its surroundings: the file system, errors
 thrown by Node, artifact contents, and the library calls it makes but
 does not define (md5 digests, HTML parsing and serialisation).
 */
module Host {
  import opened NodePath
  import opened Document

  /** Files on disk by resolved path. Directories are not entries. */
  type FileSystem = map<AbsPath, string>

  datatype Error =
    | NoSuchFile(path: AbsPath)   // ENOENT from readFileSync or renameSync
    | InvalidPath                 // TypeError from path.resolve(undefined)

  /** The result of a step with file-system effects; a throw keeps the effects made before it. */
  datatype Outcome<T> = Done(fs: FileSystem, value: T) | Thrown(fs: FileSystem, error: Error)

  /** Artifact content: a string, or a buffer (always truthy, even when empty). */
  datatype Payload = Text(text: string) | Binary(bytes: seq<bv8>)

  datatype Env = Env(
    processCwd: AbsPath,         // process.cwd()
    md5: Payload -> Name,        // hasha(content, { algorithm: 'md5' })
    parseHtml: string -> Doc,    // cheerio.load(code, { decodeEntities: false })
    serialize: Doc -> string)    // $.html()
}
