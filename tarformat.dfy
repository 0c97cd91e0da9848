/** The parts of an archive/tar header that sz.go reads or sets. */
module TarFormat {

  datatype TypeFlag =
    | TypeReg      // '0'
    | TypeRegA     // '\x00', the pre-POSIX regular file
    | TypeLink     // '1', hard link
    | TypeSymlink  // '2'
    | TypeChar     // '3'
    | TypeBlock    // '4'
    | TypeDir      // '5'
    | TypeFifo     // '6'
    | TypeOther    // any other type flag a reader may meet

  datatype Header = Header(
    name: string,
    typeflag: TypeFlag,
    mode: nat,
    size: nat,
    linkname: string,
    devmajor: bv64,   // tar.Header holds the device numbers as 64-bit integers
    devminor: bv64,
    xattrs: map<string, string>)
}
