/**
 Bytes, shared by the disk, the caches and the file system. The sizes of sectors (512), directory entries (16), inodes
 (32) and pointer tables (256) are written out where they are multiplied or divided by, to keep the arithmetic linear.
*/
module Bytes {
  type byte = x: int | 0 <= x < 256
}
